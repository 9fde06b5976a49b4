/** Captures as a writer lays them out, classic pcap and pcapng, in both byte orders: walking a
    written capture meets exactly the frames that went into it. */
module CaptureWriter {
  import opened Wire
  import opened Capture

  // ---- integers ----

  lemma Successor(b: bv8)
    requires b as int < 255
    ensures (b + 1) as int == b as int + 1
  {
  }

  predicate IsByte(b: bv8, n: nat) {
    b as int == n
  }

  lemma {:induction false} ByteExists(n: nat)
    requires n < 256
    ensures exists b :: IsByte(b, n)
  {
    if n == 0 {
      assert IsByte(0, 0);
    } else {
      ByteExists(n - 1);
      var b :| IsByte(b, n - 1);
      Successor(b);
      assert IsByte(b + 1, n);
    }
  }

  /** The byte with a given value. */
  ghost function ByteOf(n: nat): (b: bv8)
    requires n < 256
    ensures b as int == n
  {
    ByteExists(n);
    var b :| IsByte(b, n);
    b
  }

  /** The value of two bytes in a byte order. */
  function Half(e: Endian, s: Bytes): nat
    requires |s| == 2
  {
    if e == Big then (s[0] as int) * 0x100 + (s[1] as int) else (s[1] as int) * 0x100 + (s[0] as int)
  }

  /** The value of four bytes in a byte order. */
  function Word(e: Endian, s: Bytes): nat
    requires |s| == 4
  {
    if e == Big then
      (s[0] as int) * 0x100_0000 + (s[1] as int) * 0x1_0000 + (s[2] as int) * 0x100 + (s[3] as int)
    else
      (s[3] as int) * 0x100_0000 + (s[2] as int) * 0x1_0000 + (s[1] as int) * 0x100 + (s[0] as int)
  }

  predicate IsHalf(e: Endian, s: Bytes, n: nat) {
    |s| == 2 && Half(e, s) == n
  }

  predicate IsWord(e: Endian, s: Bytes, n: nat) {
    |s| == 4 && Word(e, s) == n
  }

  lemma HalfExists(e: Endian, n: nat)
    requires n < 0x1_0000
    ensures exists s :: IsHalf(e, s, n)
  {
    var hi, lo := ByteOf(n / 0x100), ByteOf(n % 0x100);
    assert IsHalf(e, if e == Big then [hi, lo] else [lo, hi], n);
  }

  lemma WordExists(e: Endian, n: nat)
    requires n < 0x1_0000_0000
    ensures exists s :: IsWord(e, s, n)
  {
    var hi, lo := n / 0x1_0000, n % 0x1_0000;
    var x, y, z, w := ByteOf(hi / 0x100), ByteOf(hi % 0x100), ByteOf(lo / 0x100), ByteOf(lo % 0x100);
    assert IsWord(e, if e == Big then [x, y, z, w] else [w, z, y, x], n);
  }

  /** The two bytes of a 16-bit number. */
  ghost function Put16(e: Endian, n: nat): (s: Bytes)
    requires n < 0x1_0000
    ensures |s| == 2 && Half(e, s) == n
  {
    HalfExists(e, n);
    var s :| IsHalf(e, s, n);
    s
  }

  /** The four bytes of a 32-bit number. */
  ghost function Put32(e: Endian, n: nat): (s: Bytes)
    requires n < 0x1_0000_0000
    ensures |s| == 4 && Word(e, s) == n
  {
    WordExists(e, n);
    var s :| IsWord(e, s, n);
    s
  }

  /** `part` stands in `b` at offset `i`. */
  predicate At(b: Bytes, i: nat, part: Bytes) {
    i + |part| <= |b| && b[i..i + |part|] == part
  }

  lemma AtByte(b: Bytes, i: nat, part: Bytes, k: nat)
    requires At(b, i, part) && k < |part|
    ensures b[i + k] == part[k]
  {
    assert b[i..i + |part|][k] == b[i + k];
  }

  lemma Read16(e: Endian, b: Bytes, i: nat, n: nat)
    requires n < 0x1_0000 && At(b, i, Put16(e, n))
    ensures U16E(e, b, i) == n
  {
    AtByte(b, i, Put16(e, n), 0);
    AtByte(b, i, Put16(e, n), 1);
  }

  lemma Read32(e: Endian, b: Bytes, i: nat, n: nat)
    requires n < 0x1_0000_0000 && At(b, i, Put32(e, n))
    ensures U32(e, b, i) == n
  {
    ReadWord(e, b, i, Put32(e, n));
  }

  lemma ReadWord(e: Endian, b: Bytes, i: nat, s: Bytes)
    requires |s| == 4 && At(b, i, s)
    ensures U32(e, b, i) == Word(e, s)
  {
    AtByte(b, i, s, 0);
    AtByte(b, i, s, 1);
    AtByte(b, i, s, 2);
    AtByte(b, i, s, 3);
  }

  /** A part of a part. */
  lemma AtPart(b: Bytes, i: nat, part: Bytes, j: nat, k: nat)
    requires At(b, i, part) && j <= k <= |part|
    ensures At(b, i + j, part[j..k])
  {
    var s := b[i..i + |part|];
    assert forall m :: j <= m < k ==> s[m] == b[i + m];
  }

  /** The pieces of a concatenation stand one behind the other. */
  lemma AtConcat(b: Bytes, i: nat, x: Bytes, y: Bytes)
    requires At(b, i, x + y)
    ensures At(b, i, x) && At(b, i + |x|, y)
  {
    AtPart(b, i, x + y, 0, |x|);
    AtPart(b, i, x + y, |x|, |x + y|);
    assert (x + y)[0..|x|] == x && (x + y)[|x|..|x + y|] == y;
  }

  // ---- walking by sizes ----

  /** Where piece `i` starts, if pieces of these sizes start at `n`. */
  function Offset(n: nat, sizes: seq<nat>, i: nat): nat
    requires i < |sizes|
    decreases i
  {
    if i == 0 then n else Offset(n + sizes[0], sizes[1..], i - 1)
  }

  /** Where the pieces end. */
  function End(n: nat, sizes: seq<nat>): nat
    decreases |sizes|
  {
    if sizes == [] then n else End(n + sizes[0], sizes[1..])
  }

  predicate Steps(l: Layout, b: Bytes, n: nat, size: nat) {
    Next(l, b, n) == Some(n + size)
  }

  /** The walk leads over pieces of these sizes, one by one. */
  predicate Chain(l: Layout, b: Bytes, n: nat, sizes: seq<nat>) {
    forall i :: 0 <= i < |sizes| ==> Steps(l, b, Offset(n, sizes, i), sizes[i])
  }

  lemma ChainTail(l: Layout, b: Bytes, n: nat, sizes: seq<nat>)
    requires sizes != [] && Chain(l, b, n, sizes)
    ensures Steps(l, b, n, sizes[0]) && Chain(l, b, n + sizes[0], sizes[1..])
  {
    assert Offset(n, sizes, 0) == n;
    var rest := sizes[1..];
    forall i | 0 <= i < |rest| ensures Steps(l, b, Offset(n + sizes[0], rest, i), rest[i]) {
      assert Offset(n, sizes, i + 1) == Offset(n + sizes[0], rest, i);
      assert Steps(l, b, Offset(n, sizes, i + 1), sizes[i + 1]);
    }
  }

  predicate VisitedAt(f: Format, b: Bytes, v: Visit, n: nat) {
    Next(f.Layout(), b, n).Some? && v == VisitAt(f, b, n)
  }

  predicate VisitedAll(f: Format, b: Bytes, vs: seq<Visit>, n: nat, sizes: seq<nat>) {
    |vs| == |sizes| && forall i :: 0 <= i < |sizes| ==> VisitedAt(f, b, vs[i], Offset(n, sizes, i))
  }

  lemma VisitedCons(f: Format, b: Bytes, v: Visit, vs: seq<Visit>, n: nat, sizes: seq<nat>)
    requires sizes != [] && VisitedAt(f, b, v, n) && VisitedAll(f, b, vs, n + sizes[0], sizes[1..])
    ensures VisitedAll(f, b, [v] + vs, n, sizes)
  {
    var all := [v] + vs;
    forall i | 0 <= i < |sizes| ensures VisitedAt(f, b, all[i], Offset(n, sizes, i)) {
      if i > 0 {
        assert all[i] == vs[i - 1];
      }
    }
  }

  /** A walk visits the pieces one by one. */
  lemma {:induction false} WalkChain(f: Format, b: Bytes, n: nat, sizes: seq<nat>)
    requires Chain(f.Layout(), b, n, sizes) && Next(f.Layout(), b, End(n, sizes)).None?
    ensures VisitedAll(f, b, Visits(f, b, n, |b|), n, sizes)
    decreases |sizes|
  {
    if sizes == [] {
      VisitsEnd(f, b, n, |b|);
    } else {
      var next := n + sizes[0];
      ChainTail(f.Layout(), b, n, sizes);
      VisitsStep(f, b, n, next, |b|);
      WalkChain(f, b, next, sizes[1..]);
      VisitedCons(f, b, VisitAt(f, b, n), Visits(f, b, next, |b|), n, sizes);
    }
  }

  // ---- pieces of a file ----

  function Join(ps: seq<Bytes>): Bytes {
    if ps == [] then [] else ps[0] + Join(ps[1..])
  }

  function Lengths(ps: seq<Bytes>): (s: seq<nat>)
    ensures |s| == |ps| && forall i :: 0 <= i < |ps| ==> s[i] == |ps[i]|
  {
    seq(|ps|, i requires 0 <= i < |ps| => |ps[i]|)
  }

  lemma LengthsTail(ps: seq<Bytes>)
    requires ps != []
    ensures Lengths(ps)[1..] == Lengths(ps[1..])
  {
  }

  /** Every piece stands at its offset. */
  lemma {:induction false} JoinAt(b: Bytes, n: nat, ps: seq<Bytes>, i: nat)
    requires At(b, n, Join(ps)) && i < |ps|
    ensures At(b, Offset(n, Lengths(ps), i), ps[i])
    decreases i
  {
    AtConcat(b, n, ps[0], Join(ps[1..]));
    if i > 0 {
      LengthsTail(ps);
      JoinAt(b, n + |ps[0]|, ps[1..], i - 1);
    }
  }

  /** The pieces end where their sizes say. */
  lemma {:induction false} JoinEnd(n: nat, ps: seq<Bytes>)
    ensures End(n, Lengths(ps)) == n + |Join(ps)|
    decreases |ps|
  {
    if ps != [] {
      LengthsTail(ps);
      JoinEnd(n + |ps[0]|, ps[1..]);
    }
  }

  // ---- classic pcap ----

  /** One record: time stamp, captured frame, and the length it had on the wire. */
  datatype Record = Record(time: Bytes, original: nat, frame: Bytes) {
    predicate Valid() {
      |time| == 8 && original < 0x1_0000_0000 && |frame| < 0x1_0000_0000
    }
  }

  ghost function Encode(e: Endian, r: Record): (s: Bytes)
    requires r.Valid()
    ensures |s| == 16 + |r.frame|
  {
    r.time + (Put32(e, |r.frame|) + (Put32(e, r.original) + r.frame))
  }

  predicate AllRecords(recs: seq<Record>) {
    forall i :: 0 <= i < |recs| ==> recs[i].Valid()
  }

  ghost function RecordPieces(e: Endian, recs: seq<Record>): (ps: seq<Bytes>)
    requires AllRecords(recs)
    ensures |ps| == |recs| && forall i :: 0 <= i < |recs| ==> ps[i] == Encode(e, recs[i])
  {
    seq(|recs|, i requires 0 <= i < |recs| => Encode(e, recs[i]))
  }

  /** The four magic numbers: microseconds or nanoseconds, in either byte order. */
  function PcapMagic(e: Endian, nano: bool): Bytes {
    var big: Bytes := if nano then [0xa1, 0xb2, 0x3c, 0x4d] else [0xa1, 0xb2, 0xc3, 0xd4];
    if e == Big then big else [big[3], big[2], big[1], big[0]]
  }

  /** A whole file: 24 bytes of header, the records, and whatever follows them. */
  ghost function PcapFile(e: Endian, nano: bool, rest: Bytes, linktype: nat, recs: seq<Record>, tail: Bytes): Bytes
    requires |rest| == 16 && linktype < 0x1_0000_0000 && AllRecords(recs)
  {
    PcapMagic(e, nano) + rest + Put32(e, linktype) + (Join(RecordPieces(e, recs)) + tail)
  }

  /** The walk met this frame, at this offset, under this link type. */
  predicate Met(b: Bytes, v: Visit, off: nat, frame: Bytes, linktype: nat) {
    && v.Frame? && v.off == off && v.linktype == linktype
    && v.end == off + |frame| && At(b, off, frame)
    && v.row == FrameRow(b, off, v.end, linktype)
  }

  function RecordSizes(recs: seq<Record>): (s: seq<nat>)
    ensures |s| == |recs| && forall i :: 0 <= i < |recs| ==> s[i] == 16 + |recs[i].frame|
  {
    seq(|recs|, i requires 0 <= i < |recs| => 16 + |recs[i].frame|)
  }

  /** The visits are the records, one by one, each frame behind its 16-byte header. */
  predicate MetAll(b: Bytes, vs: seq<Visit>, n: nat, recs: seq<Record>, linktype: nat) {
    && |vs| == |recs|
    && forall i :: 0 <= i < |recs| ==> Met(b, vs[i], Offset(n, RecordSizes(recs), i) + 16, recs[i].frame, linktype)
  }

  /** A record lies at `n`: captured length in its header, frame behind it. */
  predicate RecordLies(e: Endian, b: Bytes, n: nat, r: Record) {
    At(b, n + 16, r.frame) && U32(e, b, n + 8) == |r.frame|
  }

  lemma EncodedLies(e: Endian, b: Bytes, n: nat, r: Record)
    requires r.Valid() && At(b, n, Encode(e, r))
    ensures RecordLies(e, b, n, r)
  {
    AtConcat(b, n, r.time, Put32(e, |r.frame|) + (Put32(e, r.original) + r.frame));
    AtConcat(b, n + 8, Put32(e, |r.frame|), Put32(e, r.original) + r.frame);
    AtConcat(b, n + 12, Put32(e, r.original), r.frame);
    Read32(e, b, n + 8, |r.frame|);
  }

  lemma RecordLengths(e: Endian, recs: seq<Record>)
    requires AllRecords(recs)
    ensures Lengths(RecordPieces(e, recs)) == RecordSizes(recs)
  {
  }

  lemma RecordStands(e: Endian, b: Bytes, n: nat, recs: seq<Record>, i: nat)
    requires AllRecords(recs) && At(b, n, Join(RecordPieces(e, recs))) && i < |recs|
    ensures RecordLies(e, b, Offset(n, RecordSizes(recs), i), recs[i])
  {
    RecordLengths(e, recs);
    JoinAt(b, n, RecordPieces(e, recs), i);
    EncodedLies(e, b, Offset(n, RecordSizes(recs), i), recs[i]);
  }

  /** The captured length, not the original one, leads from a record to the next. */
  lemma NextRecord(e: Endian, b: Bytes, n: nat, r: Record)
    requires RecordLies(e, b, n, r)
    ensures Next(Records(e), b, n) == Some(n + 16 + |r.frame|)
  {
  }

  lemma SpanMeets(f: Format, b: Bytes, v: Visit, n: nat, off: nat, frame: Bytes, linktype: nat)
    requires VisitedAt(f, b, v, n) && At(b, off, frame) && SpanAt(f, b, n) == Span(off, off + |frame|, linktype)
    ensures Met(b, v, off, frame, linktype)
  {
  }

  lemma RecordMet(e: Endian, linktype: nat, b: Bytes, v: Visit, n: nat, r: Record)
    requires RecordLies(e, b, n, r) && VisitedAt(Pcap(e, linktype), b, v, n)
    ensures Met(b, v, n + 16, r.frame, linktype)
  {
    NextRecord(e, b, n, r);
    SpanMeets(Pcap(e, linktype), b, v, n, n + 16, r.frame, linktype);
  }

  predicate RecordsLie(e: Endian, b: Bytes, n: nat, recs: seq<Record>) {
    forall i :: 0 <= i < |recs| ==> RecordLies(e, b, Offset(n, RecordSizes(recs), i), recs[i])
  }

  lemma RecordsChain(e: Endian, b: Bytes, n: nat, recs: seq<Record>)
    requires RecordsLie(e, b, n, recs)
    ensures Chain(Records(e), b, n, RecordSizes(recs))
  {
    var sizes := RecordSizes(recs);
    forall i | 0 <= i < |sizes| ensures Steps(Records(e), b, Offset(n, sizes, i), sizes[i]) {
      NextRecord(e, b, Offset(n, sizes, i), recs[i]);
    }
  }

  lemma RecordMetAt(e: Endian, linktype: nat, b: Bytes, vs: seq<Visit>, n: nat, recs: seq<Record>, i: nat)
    requires VisitedAll(Pcap(e, linktype), b, vs, n, RecordSizes(recs)) && RecordsLie(e, b, n, recs) && i < |recs|
    ensures Met(b, vs[i], Offset(n, RecordSizes(recs), i) + 16, recs[i].frame, linktype)
  {
    assert VisitedAt(Pcap(e, linktype), b, vs[i], Offset(n, RecordSizes(recs), i));
    RecordMet(e, linktype, b, vs[i], Offset(n, RecordSizes(recs), i), recs[i]);
  }

  lemma RecordsMet(e: Endian, linktype: nat, b: Bytes, vs: seq<Visit>, n: nat, recs: seq<Record>)
    requires VisitedAll(Pcap(e, linktype), b, vs, n, RecordSizes(recs)) && RecordsLie(e, b, n, recs)
    ensures MetAll(b, vs, n, recs, linktype)
  {
    forall i | 0 <= i < |recs| ensures Met(b, vs[i], Offset(n, RecordSizes(recs), i) + 16, recs[i].frame, linktype) {
      RecordMetAt(e, linktype, b, vs, n, recs, i);
    }
  }

  /** The walk over records that stand in the file from `n` on. */
  lemma WalkEncoded(e: Endian, linktype: nat, b: Bytes, n: nat, recs: seq<Record>)
    requires AllRecords(recs) && At(b, n, Join(RecordPieces(e, recs)))
    requires Next(Records(e), b, n + |Join(RecordPieces(e, recs))|).None?
    ensures MetAll(b, Visits(Pcap(e, linktype), b, n, |b|), n, recs, linktype)
  {
    forall i | 0 <= i < |recs| ensures RecordLies(e, b, Offset(n, RecordSizes(recs), i), recs[i]) {
      RecordStands(e, b, n, recs, i);
    }
    RecordLengths(e, recs);
    JoinEnd(n, RecordPieces(e, recs));
    WalkRecords(e, linktype, b, n, recs);
  }

  lemma WalkRecords(e: Endian, linktype: nat, b: Bytes, n: nat, recs: seq<Record>)
    requires RecordsLie(e, b, n, recs) && Next(Records(e), b, End(n, RecordSizes(recs))).None?
    ensures MetAll(b, Visits(Pcap(e, linktype), b, n, |b|), n, recs, linktype)
  {
    RecordsChain(e, b, n, recs);
    WalkChain(Pcap(e, linktype), b, n, RecordSizes(recs));
    RecordsMet(e, linktype, b, Visits(Pcap(e, linktype), b, n, |b|), n, recs);
  }

  lemma PcapHeader(e: Endian, nano: bool, rest: Bytes, linktype: nat, recs: seq<Record>, tail: Bytes)
    requires |rest| == 16 && linktype < 0x1_0000_0000 && AllRecords(recs)
    ensures var b := PcapFile(e, nano, rest, linktype, recs, tail);
      && FormatOf(b) == Ok(Pcap(e, linktype)) && At(b, 24, Join(RecordPieces(e, recs)))
      && |b| == 24 + |Join(RecordPieces(e, recs))| + |tail|
  {
    var b := PcapFile(e, nano, rest, linktype, recs, tail);
    var magic := PcapMagic(e, nano);
    assert Take(b, 4) == magic;
    assert magic[0] != NG_MAGIC[0];
    assert LittleMagic(magic) <==> e == Little;
    assert At(b, 20, Put32(e, linktype));
    Read32(e, b, 20, linktype);
    assert At(b, 24, Join(RecordPieces(e, recs)) + tail);
    AtConcat(b, 24, Join(RecordPieces(e, recs)), tail);
  }

  /** Writer round trip for classic pcap: whatever the frames, original lengths, time stamps
      and byte order, and whatever incomplete record follows them, the format is recognized and
      the walk meets exactly the written frames at their places. */
  lemma PcapRoundTrip(e: Endian, nano: bool, rest: Bytes, linktype: nat, recs: seq<Record>, tail: Bytes)
    requires |rest| == 16 && linktype < 0x1_0000_0000 && AllRecords(recs)
    requires Next(Records(e), PcapFile(e, nano, rest, linktype, recs, tail), 24 + |Join(RecordPieces(e, recs))|).None?
    ensures var b := PcapFile(e, nano, rest, linktype, recs, tail);
      && FormatOf(b) == Ok(Pcap(e, linktype))
      && MetAll(b, Visits(Pcap(e, linktype), b, 24, |b|), 24, recs, linktype)
  {
    PcapHeader(e, nano, rest, linktype, recs, tail);
    WalkEncoded(e, linktype, PcapFile(e, nano, rest, linktype, recs, tail), 24, recs);
  }

  /** A record cut off anywhere ends the walk; so does the end of the file. */
  lemma CutRecord(e: Endian, b: Bytes, n: nat, r: Record)
    requires r.Valid() && n <= |b| < n + |Encode(e, r)| && b[n..] == Encode(e, r)[..|b| - n]
    ensures Next(Records(e), b, n).None?
  {
    if n + 16 <= |b| {
      var s := Encode(e, r);
      assert s[8..12] == Put32(e, |r.frame|);
      assert forall i :: 8 <= i < 12 ==> b[n..][i] == s[i];
      assert b[n + 8..n + 12] == s[8..12];
      Read32(e, b, n + 8, |r.frame|);
    }
  }

  // ---- pcapng ----

  /** A block as the format frames it: four bytes of type and a body. */
  datatype Raw = Raw(kind: Bytes, body: Bytes) {
    predicate Valid() {
      |kind| == 4 && 12 + |body| < 0x1_0000_0000
    }

    function Size(): nat {
      12 + |body|
    }
  }

  ghost function EncodeRaw(e: Endian, r: Raw): (s: Bytes)
    requires r.Valid()
    ensures |s| == r.Size()
  {
    r.kind + (Put32(e, r.Size()) + (r.body + Put32(e, r.Size())))
  }

  /** A block lies at `n`. */
  predicate BlockLies(e: Endian, b: Bytes, n: nat, r: Raw) {
    && n + r.Size() <= |b| && U32(e, b, n + 4) == r.Size()
    && At(b, n, r.kind) && At(b, n + 8, r.body)
  }

  lemma RawLies(e: Endian, b: Bytes, n: nat, r: Raw)
    requires r.Valid() && At(b, n, EncodeRaw(e, r))
    ensures BlockLies(e, b, n, r)
  {
    var size := Put32(e, r.Size());
    AtConcat(b, n, r.kind, size + (r.body + size));
    AtConcat(b, n + 4, size, r.body + size);
    AtConcat(b, n + 8, r.body, size);
    Read32(e, b, n + 4, r.Size());
  }

  lemma NextBlock(e: Endian, b: Bytes, n: nat, r: Raw)
    requires BlockLies(e, b, n, r)
    ensures Next(Blocks(e), b, n) == Some(n + r.Size())
  {
  }

  function RawSizes(rs: seq<Raw>): (s: seq<nat>)
    ensures |s| == |rs| && forall i :: 0 <= i < |rs| ==> s[i] == rs[i].Size()
  {
    seq(|rs|, i requires 0 <= i < |rs| => rs[i].Size())
  }

  /** Blocks lie one behind the other from `n` on. */
  predicate BlocksLie(e: Endian, b: Bytes, n: nat, rs: seq<Raw>) {
    forall i :: 0 <= i < |rs| ==> BlockLies(e, b, Offset(n, RawSizes(rs), i), rs[i])
  }

  lemma BlocksChain(e: Endian, b: Bytes, n: nat, rs: seq<Raw>)
    requires BlocksLie(e, b, n, rs)
    ensures Chain(Blocks(e), b, n, RawSizes(rs))
  {
    var sizes := RawSizes(rs);
    forall i | 0 <= i < |sizes| ensures Steps(Blocks(e), b, Offset(n, sizes, i), sizes[i]) {
      NextBlock(e, b, Offset(n, sizes, i), rs[i]);
    }
  }

  /** The blocks that the walk tells apart, each with whatever padding and options follow. */
  datatype Block =
    | Interface(linktype: nat, rest: Bytes)
    | Enhanced(iface: nat, time: Bytes, original: nat, frame: Bytes, rest: Bytes)
    | Simple(original: nat, frame: Bytes)
    | Other(kind: Bytes, rest: Bytes)
  {
    predicate FieldsFit(e: Endian) {
      match this
      case Interface(linktype, _) => linktype < 0x1_0000
      case Enhanced(iface, time, original, frame, _) =>
        iface < 0x1_0000_0000 && |time| == 8 && original < 0x1_0000_0000 && |frame| < 0x1_0000_0000
      case Simple(original, _) => original < 0x1_0000_0000
      case Other(kind, _) => |kind| == 4 && Word(e, kind) != 1 && Word(e, kind) != 3 && Word(e, kind) != 6
    }

    ghost function ToRaw(e: Endian): Raw
      requires FieldsFit(e)
    {
      match this
      case Interface(linktype, rest) => Raw(Put32(e, 1), Put16(e, linktype) + rest)
      case Enhanced(iface, time, original, frame, rest) =>
        Raw(Put32(e, 6), Put32(e, iface) + (time + (Put32(e, |frame|) + (Put32(e, original) + (frame + rest)))))
      case Simple(original, frame) => Raw(Put32(e, 3), Put32(e, original) + frame)
      case Other(kind, rest) => Raw(kind, rest)
    }

    ghost predicate Valid(e: Endian) {
      FieldsFit(e) && ToRaw(e).Valid()
    }
  }

  ghost predicate AllBlocks(e: Endian, ks: seq<Block>) {
    forall i :: 0 <= i < |ks| ==> ks[i].Valid(e)
  }

  ghost function ToRaws(e: Endian, ks: seq<Block>): (rs: seq<Raw>)
    requires AllBlocks(e, ks)
    ensures |rs| == |ks| && forall i :: 0 <= i < |ks| ==> rs[i] == ks[i].ToRaw(e) && rs[i].Valid()
  {
    seq(|ks|, i requires 0 <= i < |ks| => ks[i].ToRaw(e))
  }

  ghost function BlockPieces(e: Endian, ks: seq<Block>): (ps: seq<Bytes>)
    requires AllBlocks(e, ks)
    ensures |ps| == |ks| && forall i :: 0 <= i < |ks| ==> ps[i] == EncodeRaw(e, ks[i].ToRaw(e))
  {
    seq(|ks|, i requires 0 <= i < |ks| => EncodeRaw(e, ks[i].ToRaw(e)))
  }

  lemma BlockLengths(e: Endian, ks: seq<Block>)
    requires AllBlocks(e, ks)
    ensures Lengths(BlockPieces(e, ks)) == RawSizes(ToRaws(e, ks))
  {
  }

  lemma BlockStands(e: Endian, b: Bytes, n: nat, ks: seq<Block>, i: nat)
    requires AllBlocks(e, ks) && At(b, n, Join(BlockPieces(e, ks))) && i < |ks|
    ensures BlockLies(e, b, Offset(n, RawSizes(ToRaws(e, ks)), i), ks[i].ToRaw(e))
  {
    BlockLengths(e, ks);
    JoinAt(b, n, BlockPieces(e, ks), i);
    RawLies(e, b, Offset(n, RawSizes(ToRaws(e, ks)), i), ks[i].ToRaw(e));
  }

  lemma BlocksStand(e: Endian, b: Bytes, n: nat, ks: seq<Block>)
    requires AllBlocks(e, ks) && At(b, n, Join(BlockPieces(e, ks)))
    ensures BlocksLie(e, b, n, ToRaws(e, ks))
    ensures End(n, RawSizes(ToRaws(e, ks))) == n + |Join(BlockPieces(e, ks))|
  {
    var rs := ToRaws(e, ks);
    forall i | 0 <= i < |rs| ensures BlockLies(e, b, Offset(n, RawSizes(rs), i), rs[i]) {
      BlockStands(e, b, n, ks, i);
    }
    BlockLengths(e, ks);
    JoinEnd(n, BlockPieces(e, ks));
  }

  /** The link types of the interfaces, in order. */
  function LinkTypes(ks: seq<Block>): seq<nat> {
    if ks == [] then []
    else Described(ks[0]) + LinkTypes(ks[1..])
  }

  /** The link type of an interface; Ethernet if it was not described. */
  function LinkTypeOf(linktypes: seq<nat>, iface: nat): nat {
    if iface < |linktypes| then linktypes[iface] else 1
  }

  /** What the walk should meet at a block. */
  predicate MetBlock(b: Bytes, v: Visit, n: nat, k: Block, linktypes: seq<nat>) {
    match k
    case Interface(_, _) => v == NoFrame
    case Other(_, _) => v == NoFrame
    case Enhanced(iface, _, _, frame, _) => Met(b, v, n + 28, frame, LinkTypeOf(linktypes, iface))
    case Simple(_, frame) => Met(b, v, n + 12, frame, LinkTypeOf(linktypes, 0))
  }

  /** The type of a block. */
  function KindOf(e: Endian, k: Block): nat
    requires k.FieldsFit(e)
  {
    match k
    case Interface(_, _) => 1
    case Enhanced(_, _, _, _, _) => 6
    case Simple(_, _) => 3
    case Other(kind, _) => Word(e, kind)
  }

  lemma ReadKind(e: Endian, b: Bytes, n: nat, k: Block)
    requires k.Valid(e) && BlockLies(e, b, n, k.ToRaw(e))
    ensures U32(e, b, n) == KindOf(e, k)
  {
    ReadWord(e, b, n, k.ToRaw(e).kind);
  }

  lemma EnhancedFields(e: Endian, b: Bytes, n: nat, k: Block)
    requires k.Enhanced? && k.FieldsFit(e) && At(b, n, k.ToRaw(e).body)
    ensures U32(e, b, n) == k.iface && U32(e, b, n + 12) == |k.frame| && At(b, n + 20, k.frame)
  {
    var d := k.frame + k.rest;
    var c := Put32(e, k.original) + d;
    AtConcat(b, n, Put32(e, k.iface), k.time + (Put32(e, |k.frame|) + c));
    AtConcat(b, n + 4, k.time, Put32(e, |k.frame|) + c);
    AtConcat(b, n + 12, Put32(e, |k.frame|), c);
    AtConcat(b, n + 16, Put32(e, k.original), d);
    AtConcat(b, n + 20, k.frame, k.rest);
    Read32(e, b, n, k.iface);
    Read32(e, b, n + 12, |k.frame|);
  }

  lemma EnhancedSize(e: Endian, k: Block)
    requires k.Enhanced? && k.FieldsFit(e)
    ensures k.ToRaw(e).Size() >= 32 + |k.frame|
  {
  }

  /** Where the frame of a block lies. */
  predicate SpanMet(f: Format, b: Bytes, n: nat, k: Block)
    requires f.PcapNg? && Next(f.Layout(), b, n).Some?
  {
    var s := SpanAt(f, b, n);
    match k
    case Interface(_, _) => s == NoSpan
    case Other(_, _) => s == NoSpan
    case Enhanced(iface, _, _, frame, _) =>
      s == Span(n + 28, n + 28 + |frame|, LinkTypeOf(f.linktypes, iface)) && At(b, n + 28, frame)
    case Simple(_, frame) =>
      s == Span(n + 12, n + 12 + |frame|, LinkTypeOf(f.linktypes, 0)) && At(b, n + 12, frame)
  }

  lemma EnhancedMet(f: Format, b: Bytes, n: nat, k: Block)
    requires f.PcapNg? && k.Enhanced? && k.Valid(f.end) && BlockLies(f.end, b, n, k.ToRaw(f.end))
    ensures Next(f.Layout(), b, n).Some? && SpanMet(f, b, n, k)
  {
    var r := k.ToRaw(f.end);
    ReadKind(f.end, b, n, k);
    EnhancedFields(f.end, b, n + 8, k);
    EnhancedSize(f.end, k);
    NextBlock(f.end, b, n, r);
    EnhancedSpan(f, b, n, n + r.Size(), k.iface, |k.frame|);
  }

  lemma EnhancedSpan(f: Format, b: Bytes, n: nat, next: nat, iface: nat, caplen: nat)
    requires f.PcapNg? && Next(f.Layout(), b, n) == Some(next) && n + 32 + caplen <= next
    requires U32(f.end, b, n) == 6 && U32(f.end, b, n + 8) == iface && U32(f.end, b, n + 20) == caplen
    ensures SpanAt(f, b, n) == Span(n + 28, n + 28 + caplen, LinkTypeOf(f.linktypes, iface))
  {
  }

  lemma SimpleMet(f: Format, b: Bytes, n: nat, k: Block)
    requires f.PcapNg? && k.Simple? && k.Valid(f.end) && BlockLies(f.end, b, n, k.ToRaw(f.end))
    ensures Next(f.Layout(), b, n).Some? && SpanMet(f, b, n, k)
  {
    var r := k.ToRaw(f.end);
    ReadKind(f.end, b, n, k);
    AtConcat(b, n + 8, Put32(f.end, k.original), k.frame);
    NextBlock(f.end, b, n, r);
    assert r.Size() == 16 + |k.frame|;
    SimpleSpan(f, b, n, n + r.Size());
  }

  lemma SimpleSpan(f: Format, b: Bytes, n: nat, next: nat)
    requires f.PcapNg? && Next(f.Layout(), b, n) == Some(next) && n + 16 <= next && U32(f.end, b, n) == 3
    ensures SpanAt(f, b, n) == Span(n + 12, next - 4, LinkTypeOf(f.linktypes, 0))
  {
  }

  lemma BlockSpan(f: Format, b: Bytes, n: nat, k: Block)
    requires f.PcapNg? && k.Valid(f.end) && BlockLies(f.end, b, n, k.ToRaw(f.end))
    ensures Next(f.Layout(), b, n).Some? && SpanMet(f, b, n, k)
  {
    if k.Enhanced? {
      EnhancedMet(f, b, n, k);
    } else if k.Simple? {
      SimpleMet(f, b, n, k);
    } else {
      ReadKind(f.end, b, n, k);
      NextBlock(f.end, b, n, k.ToRaw(f.end));
    }
  }

  lemma BlockMet(f: Format, b: Bytes, v: Visit, n: nat, k: Block)
    requires f.PcapNg? && VisitedAt(f, b, v, n) && SpanMet(f, b, n, k)
    ensures MetBlock(b, v, n, k, f.linktypes)
  {
    match k
    case Enhanced(iface, _, _, frame, _) =>
      SpanMeets(f, b, v, n, n + 28, frame, LinkTypeOf(f.linktypes, iface));
    case Simple(_, frame) =>
      SpanMeets(f, b, v, n, n + 12, frame, LinkTypeOf(f.linktypes, 0));
    case _ =>
  }

  lemma InterfaceStep(e: Endian, b: Bytes, n: nat, k: Block, r: Raw)
    requires k.Valid(e) && r == k.ToRaw(e) && BlockLies(e, b, n, r)
    ensures Describes(e, b, n, k, r.Size())
  {
    ReadKind(e, b, n, k);
    if k.Interface? {
      AtConcat(b, n + 8, Put16(e, k.linktype), k.rest);
      Read16(e, b, n + 8, k.linktype);
    }
  }

  lemma NoInterfaces(e: Endian, b: Bytes, n: nat)
    requires Next(Blocks(e), b, n).None?
    ensures Interfaces(e, b, n) == []
  {
  }

  /** What one block adds to the interfaces. */
  function Described(k: Block): seq<nat> {
    if k.Interface? then [k.linktype] else []
  }

  predicate Describes(e: Endian, b: Bytes, n: nat, k: Block, size: nat) {
    Interfaces(e, b, n) == Described(k) + Interfaces(e, b, n + size)
  }

  predicate DescribeAll(e: Endian, b: Bytes, n: nat, ks: seq<Block>, sizes: seq<nat>)
    requires |ks| == |sizes|
  {
    forall i :: 0 <= i < |ks| ==> Describes(e, b, Offset(n, sizes, i), ks[i], sizes[i])
  }

  lemma DescribeTail(e: Endian, b: Bytes, n: nat, ks: seq<Block>, sizes: seq<nat>)
    requires |ks| == |sizes| && ks != [] && DescribeAll(e, b, n, ks, sizes)
    ensures Describes(e, b, n, ks[0], sizes[0]) && DescribeAll(e, b, n + sizes[0], ks[1..], sizes[1..])
  {
    assert Offset(n, sizes, 0) == n;
    var rest := sizes[1..];
    forall i | 0 <= i < |rest| ensures Describes(e, b, Offset(n + sizes[0], rest, i), ks[1..][i], rest[i]) {
      assert Offset(n, sizes, i + 1) == Offset(n + sizes[0], rest, i);
      assert Describes(e, b, Offset(n, sizes, i + 1), ks[i + 1], sizes[i + 1]);
    }
  }

  /** The index walk collects the link types of the interfaces. */
  lemma {:induction false} InterfacesFound(e: Endian, b: Bytes, n: nat, ks: seq<Block>, sizes: seq<nat>)
    requires |ks| == |sizes| && DescribeAll(e, b, n, ks, sizes) && Next(Blocks(e), b, End(n, sizes)).None?
    ensures Interfaces(e, b, n) == LinkTypes(ks)
    decreases |ks|
  {
    if ks == [] {
      NoInterfaces(e, b, n);
    } else {
      DescribeTail(e, b, n, ks, sizes);
      InterfacesFound(e, b, n + sizes[0], ks[1..], sizes[1..]);
    }
  }

  /** The visits are the blocks, one by one. */
  ghost predicate MetBlocks(e: Endian, b: Bytes, vs: seq<Visit>, ks: seq<Block>, linktypes: seq<nat>)
    requires AllBlocks(e, ks)
  {
    && |vs| == |ks|
    && forall i :: 0 <= i < |ks| ==> MetBlock(b, vs[i], Offset(0, RawSizes(ToRaws(e, ks)), i), ks[i], linktypes)
  }

  lemma AllBlocksMet(f: Format, b: Bytes, vs: seq<Visit>, ks: seq<Block>, rs: seq<Raw>)
    requires f.PcapNg? && AllBlocks(f.end, ks) && rs == ToRaws(f.end, ks)
    requires BlocksLie(f.end, b, 0, rs) && VisitedAll(f, b, vs, 0, RawSizes(rs))
    ensures MetBlocks(f.end, b, vs, ks, f.linktypes)
  {
    forall i | 0 <= i < |ks| ensures MetBlock(b, vs[i], Offset(0, RawSizes(rs), i), ks[i], f.linktypes) {
      BlockSpan(f, b, Offset(0, RawSizes(rs), i), ks[i]);
      BlockMet(f, b, vs[i], Offset(0, RawSizes(rs), i), ks[i]);
    }
  }

  lemma AllDescribed(e: Endian, b: Bytes, ks: seq<Block>, rs: seq<Raw>)
    requires AllBlocks(e, ks) && rs == ToRaws(e, ks) && BlocksLie(e, b, 0, rs)
    ensures DescribeAll(e, b, 0, ks, RawSizes(rs))
  {
    forall i | 0 <= i < |ks| ensures Describes(e, b, Offset(0, RawSizes(rs), i), ks[i], RawSizes(rs)[i]) {
      InterfaceStep(e, b, Offset(0, RawSizes(rs), i), ks[i], rs[i]);
    }
  }

  /** The section header in front of a file: its type reads the same in both byte orders, its
      byte-order magic does not. */
  ghost function Section(e: Endian, rest: Bytes): Block {
    Other([0x0a, 0x0d, 0x0d, 0x0a], Put32(e, 0x1A2B3C4D) + rest)
  }

  /** A whole file: section header and other blocks, and whatever follows them. */
  ghost function PcapNgFile(e: Endian, ks: seq<Block>, tail: Bytes): Bytes
    requires AllBlocks(e, ks)
  {
    Join(BlockPieces(e, ks)) + tail
  }

  lemma FourDigits(a: nat, b: nat, c: nat, d: nat, a': nat, b': nat, c': nat, d': nat)
    requires a < 256 && b < 256 && c < 256 && d < 256 && a' < 256 && b' < 256 && c' < 256 && d' < 256
    requires a * 0x100_0000 + b * 0x1_0000 + c * 0x100 + d == a' * 0x100_0000 + b' * 0x1_0000 + c' * 0x100 + d'
    ensures a == a' && b == b' && c == c' && d == d'
  {
  }

  lemma OrderDigits(a: nat, b: nat, c: nat, d: nat)
    requires a < 256 && b < 256 && c < 256 && d < 256
    requires a * 0x100_0000 + b * 0x1_0000 + c * 0x100 + d == 0x1A2B3C4D
    ensures d * 0x100_0000 + c * 0x1_0000 + b * 0x100 + a != 0x1A2B3C4D
  {
    FourDigits(a, b, c, d, 0x1A, 0x2B, 0x3C, 0x4D);
  }

  lemma ByteBound(x: bv8)
    ensures 0 <= x as int < 256
  {
  }

  lemma DigitsOf(s: Bytes) returns (a: nat, b: nat, c: nat, d: nat)
    requires |s| == 4
    ensures a < 256 && b < 256 && c < 256 && d < 256
    ensures Word(Big, s) == a * 0x100_0000 + b * 0x1_0000 + c * 0x100 + d
    ensures Word(Little, s) == d * 0x100_0000 + c * 0x1_0000 + b * 0x100 + a
  {
    ByteBound(s[0]);
    ByteBound(s[1]);
    ByteBound(s[2]);
    ByteBound(s[3]);
    a, b, c, d := s[0] as int, s[1] as int, s[2] as int, s[3] as int;
  }

  /** The byte-order magic reads as itself in its own order only. */
  lemma OrderMagic(s: Bytes, big: nat, little: nat)
    requires |s| == 4 && Word(Big, s) == big && Word(Little, s) == little && big == 0x1A2B3C4D
    ensures little != 0x1A2B3C4D
  {
    var a, b, c, d := DigitsOf(s);
    OrderDigits(a, b, c, d);
  }

  lemma ReadOrder(e: Endian, b: Bytes, s: Bytes)
    requires |s| == 4 && Word(e, s) == 0x1A2B3C4D && At(b, 8, s)
    ensures U32(e, b, 8) == 0x1A2B3C4D && (e == Big ==> U32(Little, b, 8) != 0x1A2B3C4D)
  {
    ReadWord(e, b, 8, s);
    if e == Big {
      OrderMagic(s, 0x1A2B3C4D, Word(Little, s));
      ReadWord(Little, b, 8, s);
    }
  }

  lemma ByOrderMagic(b: Bytes, e: Endian)
    requires |b| >= 12 && At(b, 0, [0x0a, 0x0d, 0x0d, 0x0a]) && U32(e, b, 8) == 0x1A2B3C4D
    requires e == Big ==> U32(Little, b, 8) != 0x1A2B3C4D
    ensures LayoutOf(b) == Ok(Blocks(e))
  {
    assert Take(b, 4) == b[0..4];
  }

  lemma SectionRecognized(e: Endian, b: Bytes, rest: Bytes, r: Raw)
    requires r.body == Put32(e, 0x1A2B3C4D) + rest && r.kind == [0x0a, 0x0d, 0x0d, 0x0a] && BlockLies(e, b, 0, r)
    ensures LayoutOf(b) == Ok(Blocks(e))
  {
    AtConcat(b, 8, Put32(e, 0x1A2B3C4D), rest);
    ReadOrder(e, b, Put32(e, 0x1A2B3C4D));
    ByOrderMagic(b, e);
  }

  /** Writer round trip for pcapng: whatever the blocks, interfaces, original lengths, padding
      and byte order, and whatever incomplete block follows them, the format and its interfaces
      are recognized and the walk meets exactly the written frames, each at its place and under
      the link type of its interface. */
  lemma PcapNgRoundTrip(e: Endian, rest: Bytes, ks: seq<Block>, tail: Bytes)
    requires ks != [] && ks[0] == Section(e, rest) && AllBlocks(e, ks)
    requires Next(Blocks(e), PcapNgFile(e, ks, tail), |Join(BlockPieces(e, ks))|).None?
    ensures var b, f := PcapNgFile(e, ks, tail), PcapNg(e, LinkTypes(ks));
      FormatOf(b) == Ok(f) && MetBlocks(e, b, Visits(f, b, 0, |b|), ks, LinkTypes(ks))
  {
    PieceFirst(Join(BlockPieces(e, ks)), tail);
    WalkBlocks(e, rest, ks, PcapNgFile(e, ks, tail));
  }

  lemma PieceFirst(s: Bytes, tail: Bytes)
    ensures At(s + tail, 0, s)
  {
  }

  lemma WalkBlocks(e: Endian, rest: Bytes, ks: seq<Block>, b: Bytes)
    requires ks != [] && ks[0] == Section(e, rest) && AllBlocks(e, ks) && At(b, 0, Join(BlockPieces(e, ks)))
    requires Next(Blocks(e), b, |Join(BlockPieces(e, ks))|).None?
    ensures var f := PcapNg(e, LinkTypes(ks));
      FormatOf(b) == Ok(f) && MetBlocks(e, b, Visits(f, b, 0, |b|), ks, LinkTypes(ks))
  {
    BlocksStand(e, b, 0, ks);
    SectionMet(e, rest, b, ks, ToRaws(e, ks));
  }

  lemma SectionMet(e: Endian, rest: Bytes, b: Bytes, ks: seq<Block>, rs: seq<Raw>)
    requires ks != [] && ks[0] == Section(e, rest) && AllBlocks(e, ks) && rs == ToRaws(e, ks)
    requires BlocksLie(e, b, 0, rs) && Next(Blocks(e), b, End(0, RawSizes(rs))).None?
    ensures var f := PcapNg(e, LinkTypes(ks));
      FormatOf(b) == Ok(f) && MetBlocks(e, b, Visits(f, b, 0, |b|), ks, LinkTypes(ks))
  {
    var f := PcapNg(e, LinkTypes(ks));
    assert BlockLies(e, b, Offset(0, RawSizes(rs), 0), rs[0]);
    SectionRecognized(e, b, rest, rs[0]);
    AllDescribed(e, b, ks, rs);
    InterfacesFound(e, b, 0, ks, RawSizes(rs));
    BlocksChain(e, b, 0, rs);
    WalkChain(f, b, 0, RawSizes(rs));
    AllBlocksMet(f, b, Visits(f, b, 0, |b|), ks, rs);
  }
}
