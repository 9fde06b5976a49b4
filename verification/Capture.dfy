/** Classic pcap and pcapng captures as byte sequences: the record walk, the frame parser,
    and the splitter that cuts a capture into ranges for parallel workers. */
module Capture {
  import opened Wire

  datatype Endian = Little | Big

  /** Record layout: classic pcap records or pcapng blocks, in one byte order. */
  datatype Layout = Records(end: Endian) | Blocks(end: Endian)

  /** A recognized capture; a pcapng file lists one link type per interface. */
  datatype Format = Pcap(end: Endian, linktype: nat) | PcapNg(end: Endian, linktypes: seq<nat>) {
    function Layout(): Layout {
      match this
      case Pcap(e, _) => Records(e)
      case PcapNg(e, _) => Blocks(e)
    }
  }

  /** One UDP/443 datagram: its 4-tuple and the first bytes of its payload. */
  datatype Row = Row(tuple: FourTuple, payload: Bytes)

  const LT_ETHER: nat := 1
  const LT_RAW: nat := 101
  const LT_SLL: nat := 113
  const LT_RAW2: nat := 12
  const LT_RAW3: nat := 14
  const PREFIX: nat := 32

  function U16E(e: Endian, b: Bytes, i: nat): nat
    requires i + 2 <= |b|
  {
    if e == Big then U16(b, i) else (b[i + 1] as int) * 256 + (b[i] as int)
  }

  function U32(e: Endian, b: Bytes, i: nat): nat
    requires i + 4 <= |b|
  {
    if e == Big then U16E(e, b, i) * 0x1_0000 + U16E(e, b, i + 2)
    else U16E(e, b, i + 2) * 0x1_0000 + U16E(e, b, i)
  }

  // ---- frames ----

  /** The datagram behind an IPv4 header at `off`, if it is UDP on port 443. Reads are
      bounded by the capture, not by the frame. */
  function UdpRow(b: Bytes, off: nat): Option<Row> {
    if off + 20 > |b| || b[off] >> 4 != 4 || b[off + 9] != 17 then None
    else
      var uoff := off + ((b[off] & 0x0F) as int) * 4;
      if uoff + 8 > |b| then None
      else
        var t := FourTuple(b[off + 12..off + 16], b[off + 16..off + 20], U16(b, uoff), U16(b, uoff + 2));
        if t.sport != QUIC_PORT && t.dport != QUIC_PORT then None
        else Some(Row(t, Take(b[uoff + 8..], PREFIX)))
  }

  predicate IsTag(etherType: nat) {
    etherType == 0x8100 || etherType == 0x88A8
  }

  /** Ether type and offset behind any number of VLAN tags, or None if the frame ends first. */
  function StripTags(b: Bytes, etherType: nat, l3: nat, end: nat): Option<(nat, nat)>
    requires end <= |b|
    decreases end - l3
  {
    if !IsTag(etherType) then Some((etherType, l3))
    else if l3 + 4 > end then None
    else StripTags(b, U16(b, l3 + 2), l3 + 4, end)
  }

  /** The datagram in the link-layer frame b[off..end]. */
  function FrameRow(b: Bytes, off: nat, end: nat, linktype: nat): Option<Row>
    requires end <= |b|
  {
    if linktype == LT_ETHER then
      if off + 14 > end then None
      else match StripTags(b, U16(b, off + 12), off + 14, end)
        case Some((0x0800, l3)) => UdpRow(b, l3)
        case _ => None
    else if linktype == LT_SLL then
      if off + 16 > end || U16(b, off + 14) != 0x0800 then None else UdpRow(b, off + 16)
    else if linktype == LT_RAW || linktype == LT_RAW2 || linktype == LT_RAW3 then UdpRow(b, off)
    else None
  }

  method ParseFrame(b: Bytes, off: nat, end: nat, linktype: nat) returns (r: Option<Row>)
    requires end <= |b|
    ensures r == FrameRow(b, off, end, linktype)
  {
    if linktype == LT_ETHER {
      if off + 14 > end {
        return None;
      }
      var et, l3 := U16(b, off + 12), off + 14;
      while IsTag(et)
        invariant l3 <= end
        invariant StripTags(b, U16(b, off + 12), off + 14, end) == StripTags(b, et, l3, end)
        decreases end - l3
      {
        if l3 + 4 > end {
          return None;
        }
        et, l3 := U16(b, l3 + 2), l3 + 4;
      }
      r := if et == 0x0800 then UdpRow(b, l3) else None;
    } else if linktype == LT_SLL {
      if off + 16 > end {
        return None;
      }
      r := if U16(b, off + 14) == 0x0800 then UdpRow(b, off + 16) else None;
    } else if linktype == LT_RAW || linktype == LT_RAW2 || linktype == LT_RAW3 {
      r := UdpRow(b, off);
    } else {
      r := None;
    }
  }

  // ---- the record walk ----

  /** The offset behind the record or block at `n`, if a complete one starts there. */
  function Next(l: Layout, b: Bytes, n: nat): (r: Option<nat>)
    ensures r.Some? ==> n + 12 <= r.value <= |b|
  {
    match l
    case Records(e) =>
      if n + 16 > |b| then None
      else
        var d := n + 16 + U32(e, b, n + 8);
        if d > |b| then None else Some(d)
    case Blocks(e) =>
      if n + 12 > |b| then None
      else
        var len := U32(e, b, n + 4);
        if len < 12 || n + len > |b| then None else Some(n + len)
  }

  /** Where the frame of a record lies. A packet block cut off by the end of the file makes
      the reader fail; other blocks hold no frame. */
  datatype Span = Unreadable | NoSpan | Span(off: nat, end: nat, linktype: nat)

  function SpanAt(f: Format, b: Bytes, n: nat): (s: Span)
    requires Next(f.Layout(), b, n).Some?
    ensures s.Span? ==> s.end <= |b|
  {
    var next := Next(f.Layout(), b, n).value;
    match f
    case Pcap(_, lt) => Span(n + 16, next, lt)
    case PcapNg(e, lts) =>
      var btype := U32(e, b, n);
      if btype == 6 then
        if n + 24 > |b| then Unreadable
        else
          var iface, caplen := U32(e, b, n + 8), U32(e, b, n + 20);
          if n + 28 + caplen > next then NoSpan
          else Span(n + 28, n + 28 + caplen, if iface < |lts| then lts[iface] else LT_ETHER)
      else if btype == 3 then
        Span(n + 12, next - 4, if lts != [] then lts[0] else LT_ETHER)
      else NoSpan
  }

  /** What the walk meets at one record: a read past the end of the file, which ends the
      program, no frame at all, or a frame with the row it yields. */
  datatype Visit = Fault | NoFrame | Frame(off: nat, end: nat, linktype: nat, row: Option<Row>)

  function VisitAt(f: Format, b: Bytes, n: nat): Visit
    requires Next(f.Layout(), b, n).Some?
  {
    match SpanAt(f, b, n)
    case Unreadable => Fault
    case NoSpan => NoFrame
    case Span(off, end, lt) => Frame(off, end, lt, FrameRow(b, off, end, lt))
  }

  /** The reader fails exactly at a packet block of pcapng that ends less than 24 bytes before
      the end of the file: its captured length, at bytes 20 to 23, cannot be read. */
  lemma FaultExactly(f: Format, b: Bytes, n: nat)
    requires Next(f.Layout(), b, n).Some?
    ensures VisitAt(f, b, n) == Fault <==> f.PcapNg? && U32(f.end, b, n) == 6 && |b| - n < 24
  {
  }

  /** Everything met at the records that start in [n, stop). */
  function Visits(f: Format, b: Bytes, n: nat, stop: nat): seq<Visit>
    decreases |b| - n
  {
    if n >= stop then []
    else match Next(f.Layout(), b, n)
      case None => []
      case Some(next) => [VisitAt(f, b, n)] + Visits(f, b, next, stop)
  }

  lemma VisitsStep(f: Format, b: Bytes, n: nat, next: nat, stop: nat)
    requires n < stop && Next(f.Layout(), b, n) == Some(next)
    ensures Visits(f, b, n, stop) == [VisitAt(f, b, n)] + Visits(f, b, next, stop)
  {
  }

  function RowsOf(vs: seq<Visit>): seq<Row> {
    if vs == [] then []
    else
      var last := vs[|vs| - 1];
      RowsOf(vs[..|vs| - 1]) + if last.Frame? && last.row.Some? then [last.row.value] else []
  }

  /** The rows that a walk yields, unless it ran into a fault. */
  function Outcome(vs: seq<Visit>): Result<seq<Row>> {
    if Fault in vs then Err(ShortRead) else Ok(RowsOf(vs))
  }

  method VisitRecord(f: Format, b: Bytes, n: nat) returns (v: Visit)
    requires Next(f.Layout(), b, n).Some?
    ensures v == VisitAt(f, b, n)
  {
    match SpanAt(f, b, n)
    case Unreadable =>
      v := Fault;
    case NoSpan =>
      v := NoFrame;
    case Span(off, end, lt) =>
      var row := ParseFrame(b, off, end, lt);
      v := Frame(off, end, lt, row);
  }

  lemma RowsSnoc(vs: seq<Visit>, v: Visit)
    ensures RowsOf(vs + [v]) == RowsOf(vs) + if v.Frame? && v.row.Some? then [v.row.value] else []
  {
    assert (vs + [v])[..|vs|] == vs;
  }

  lemma VisitsEnd(f: Format, b: Bytes, n: nat, stop: nat)
    requires n >= stop || Next(f.Layout(), b, n).None?
    ensures Visits(f, b, n, stop) == []
  {
  }

  /** What a worker has collected from the visits seen so far. */
  ghost predicate Collected(all: seq<Visit>, seen: seq<Visit>, rest: seq<Visit>, rows: seq<Row>) {
    all == seen + rest && Fault !in seen && rows == RowsOf(seen)
  }

  lemma CollectStep(all: seq<Visit>, seen: seq<Visit>, v: Visit, rest: seq<Visit>, rows: seq<Row>)
    requires Collected(all, seen, [v] + rest, rows)
    ensures v == Fault ==> Outcome(all) == Err(ShortRead)
    ensures v != Fault ==>
      Collected(all, seen + [v], rest, if v.Frame? && v.row.Some? then rows + [v.row.value] else rows)
  {
    RowsSnoc(seen, v);
    assert all == (seen + [v]) + rest && all[|seen|] == v;
  }

  lemma CollectDone(all: seq<Visit>, seen: seq<Visit>, rows: seq<Row>)
    requires Collected(all, seen, [], rows)
    ensures Outcome(all) == Ok(rows)
  {
    assert all == seen;
  }

  /** One worker's walk. */
  method IterRange(f: Format, b: Bytes, start: nat, stop: nat) returns (r: Result<seq<Row>>)
    ensures r == Outcome(Visits(f, b, start, stop))
  {
    var n := start;
    var rows: seq<Row> := [];
    ghost var all := Visits(f, b, start, stop);
    ghost var seen: seq<Visit> := [];
    ghost var rest := all;
    while n < stop
      invariant rest == Visits(f, b, n, stop)
      invariant Collected(all, seen, rest, rows)
      decreases |b| - n
    {
      var next := Next(f.Layout(), b, n);
      if next.None? {
        break;
      }
      var v := VisitRecord(f, b, n);
      VisitsStep(f, b, n, next.value, stop);
      rest := Visits(f, b, next.value, stop);
      CollectStep(all, seen, v, rest, rows);
      if v.Fault? {
        return Err(ShortRead);
      }
      if v.Frame? && v.row.Some? {
        rows := rows + [v.row.value];
      }
      seen := seen + [v];
      n := next.value;
    }
    VisitsEnd(f, b, n, stop);
    CollectDone(all, seen, rows);
    r := Ok(rows);
  }

  // ---- boundaries ----

  /** The walk from `a` arrives at offset `m`. */
  ghost predicate Reach(l: Layout, b: Bytes, a: nat, m: nat)
    decreases |b| - a
  {
    a == m || (Next(l, b, a).Some? && Reach(l, b, Next(l, b, a).value, m))
  }

  lemma {:induction false} ReachForward(l: Layout, b: Bytes, a: nat, m: nat)
    requires Reach(l, b, a, m)
    ensures a <= m
    decreases |b| - a
  {
    if a != m {
      ReachForward(l, b, Next(l, b, a).value, m);
    }
  }

  lemma {:induction false} ReachStep(l: Layout, b: Bytes, a: nat, m: nat)
    requires Reach(l, b, a, m) && Next(l, b, m).Some?
    ensures Reach(l, b, a, Next(l, b, m).value)
    decreases |b| - a
  {
    if a != m {
      ReachStep(l, b, Next(l, b, a).value, m);
    }
  }

  /** No boundary lies strictly between a boundary and its successor. */
  lemma {:induction false} NothingBetween(l: Layout, b: Bytes, a: nat, n: nat, m: nat)
    requires Reach(l, b, a, n) && Reach(l, b, a, m) && Next(l, b, n).Some? && n < m
    ensures Next(l, b, n).value <= m
    decreases |b| - a
  {
    ReachForward(l, b, a, n);
    if a == n {
      ReachForward(l, b, Next(l, b, a).value, m);
    } else {
      NothingBetween(l, b, Next(l, b, a).value, n, m);
    }
  }

  /** Cutting a walk at a boundary loses and repeats nothing. */
  lemma {:induction false} VisitsSplit(f: Format, b: Bytes, a: nat, m: nat, stop: nat)
    requires Reach(f.Layout(), b, a, m) && m <= stop
    ensures Visits(f, b, a, stop) == Visits(f, b, a, m) + Visits(f, b, m, stop)
    decreases |b| - a
  {
    ReachForward(f.Layout(), b, a, m);
    if a < m {
      var next := Next(f.Layout(), b, a).value;
      VisitsSplit(f, b, next, m, stop);
      VisitsStep(f, b, a, next, m);
      VisitsStep(f, b, a, next, stop);
    } else {
      assert Visits(f, b, a, m) == [];
    }
  }

  // ---- format detection and splitting ----

  function Interfaces(e: Endian, b: Bytes, n: nat): seq<nat>
    decreases |b| - n
  {
    match Next(Blocks(e), b, n)
    case None => []
    case Some(next) => (if U32(e, b, n) == 1 then [U16E(e, b, n + 8)] else []) + Interfaces(e, b, next)
  }

  const NG_MAGIC: Bytes := [0x0a, 0x0d, 0x0d, 0x0a]

  predicate LittleMagic(m: Bytes) {
    m == [0xd4, 0xc3, 0xb2, 0xa1] || m == [0x4d, 0x3c, 0xb2, 0xa1]
  }

  predicate BigMagic(m: Bytes) {
    m == [0xa1, 0xb2, 0xc3, 0xd4] || m == [0xa1, 0xb2, 0x3c, 0x4d]
  }

  /** What the header of the file says about its layout. */
  function LayoutOf(b: Bytes): (r: Result<Layout>)
    ensures r.Ok? ==> |b| >= if r.value.Records? then 24 else 12
  {
    if b == [] then Err(EmptyFile)
    else if Take(b, 4) == NG_MAGIC then
      if |b| < 12 then Err(ShortRead)
      else if U32(Little, b, 8) == 0x1A2B3C4D then Ok(Blocks(Little))
      else if U32(Big, b, 8) == 0x1A2B3C4D then Ok(Blocks(Big))
      else Err(BadMagic)
    else if LittleMagic(Take(b, 4)) || BigMagic(Take(b, 4)) then
      if |b| < 24 then Err(ShortRead)
      else Ok(Records(if LittleMagic(Take(b, 4)) then Little else Big))
    else Err(BadMagic)
  }

  function FormatOf(b: Bytes): Result<Format> {
    match LayoutOf(b)
    case Err(e) => Err(e)
    case Ok(Records(e)) => Ok(Pcap(e, U32(e, b, 20)))
    case Ok(Blocks(e)) => Ok(PcapNg(e, Interfaces(e, b, 0)))
  }

  /** Which files are recognized, by their first bytes: a pcapng section header with one of the
      two byte-order magics, or one of the four pcap magics with a complete header. All others
      are refused; the empty file for being empty. */
  lemma RecognizedExactly(b: Bytes)
    ensures FormatOf(b).Ok? <==>
      || (|b| >= 12 && b[..4] == [0x0a, 0x0d, 0x0d, 0x0a] &&
          (U32(Little, b, 8) == 0x1A2B3C4D || U32(Big, b, 8) == 0x1A2B3C4D))
      || (|b| >= 24 && b[..4] in {[0xd4, 0xc3, 0xb2, 0xa1], [0x4d, 0x3c, 0xb2, 0xa1],
                                  [0xa1, 0xb2, 0xc3, 0xd4], [0xa1, 0xb2, 0x3c, 0x4d]})
    ensures FormatOf(b) == Err(EmptyFile) <==> |b| == 0
  {
    if |b| >= 4 {
      assert Take(b, 4) == b[..4];
    } else {
      assert |Take(b, 4)| < 4;
    }
  }

  function Start(l: Layout): nat {
    if l.Records? then 24 else 0
  }

  /** The i-th cut is wanted here. */
  function Threshold(start: nat, target: real, i: nat): real {
    if i == 0 then start as real else Threshold(start, target, i - 1) + target
  }

  /** The splits cover the capture from its first record to its end, in order, and every
      one of them but the last is a record boundary. */
  ghost predicate Tiles(l: Layout, b: Bytes, njobs: nat, splits: seq<nat>) {
    && 2 <= |splits| <= njobs + 1
    && splits[0] == Start(l) && splits[|splits| - 1] == |b|
    && (Start(l) < |b| ==> forall i :: 0 < i < |splits| ==> splits[i - 1] < splits[i])
    && (forall i :: 0 <= i < |splits| - 1 ==> Reach(l, b, Start(l), splits[i]))
  }

  /** A complete record of the capture starts at `m`. */
  ghost predicate RecordAt(l: Layout, b: Bytes, m: nat) {
    Reach(l, b, Start(l), m) && Next(l, b, m).Some?
  }

  /** Every record that starts strictly between `lo` and `hi` starts below the threshold. */
  ghost predicate AllBelow(l: Layout, b: Bytes, lo: nat, hi: nat, threshold: real) {
    forall m :: lo < m < hi && RecordAt(l, b, m) ==> m as real < threshold
  }

  /** Each interior split is the first record boundary at or past its threshold after the
      previous split, and none is missing while there are jobs left. */
  ghost predicate WellPlaced(l: Layout, b: Bytes, njobs: nat, splits: seq<nat>, target: real) {
    && (forall i :: 0 < i < |splits| - 1 ==> splits[i] as real >= Threshold(Start(l), target, i))
    && (forall i :: 0 < i < |splits| && i < njobs ==>
          AllBelow(l, b, splits[i - 1], splits[i], Threshold(Start(l), target, i)))
  }

  function Target(l: Layout, b: Bytes, njobs: nat): real
    requires njobs > 0
  {
    (|b| - Start(l)) as real / njobs as real
  }

  lemma {:induction false} ThresholdIs(start: nat, target: real, i: nat)
    ensures Threshold(start, target, i) == start as real + i as real * target
  {
    if i > 0 {
      ThresholdIs(start, target, i - 1);
      assert i as real * target == (i - 1) as real * target + target;
    }
  }

  /** The thresholds divide the records of the capture into equal parts: the last one is the
      end of the file. */
  lemma ThresholdsDivide(l: Layout, b: Bytes, njobs: nat, i: nat)
    requires njobs > 0
    ensures Threshold(Start(l), Target(l, b, njobs), 0) == Start(l) as real
    ensures Threshold(Start(l), Target(l, b, njobs), njobs) == |b| as real
    ensures Threshold(Start(l), Target(l, b, njobs), i + 1) - Threshold(Start(l), Target(l, b, njobs), i)
         == Threshold(Start(l), Target(l, b, njobs), 1) - Start(l) as real
  {
    ThresholdIs(Start(l), Target(l, b, njobs), njobs);
    Share((|b| - Start(l)) as real, njobs as real);
  }

  lemma Share(x: real, y: real)
    requires y > 0.0
    ensures y * (x / y) == x
  {
  }

  /** The splits so far, while the walk stands at boundary `n`. */
  ghost predicate Spine(l: Layout, b: Bytes, njobs: nat, splits: seq<nat>, n: nat) {
    && 1 <= |splits| <= njobs && splits[0] == Start(l)
    && Reach(l, b, Start(l), n)
    && (splits[|splits| - 1] < n || (|splits| == 1 && n == Start(l)))
    && (forall i :: 0 < i < |splits| ==> splits[i - 1] < splits[i])
    && (forall i :: 0 <= i < |splits| ==> Reach(l, b, Start(l), splits[i]))
  }

  ghost predicate Placed(l: Layout, b: Bytes, splits: seq<nat>, target: real) {
    && (forall i :: 0 < i < |splits| ==> splits[i] as real >= Threshold(Start(l), target, i))
    && (forall i :: 0 < i < |splits| ==>
          AllBelow(l, b, splits[i - 1], splits[i], Threshold(Start(l), target, i)))
  }

  ghost predicate Cutting(l: Layout, b: Bytes, njobs: nat, splits: seq<nat>, target: real, n: nat) {
    && Spine(l, b, njobs, splits, n)
    && Placed(l, b, splits, target)
    && (|splits| < njobs ==> AllBelow(l, b, splits[|splits| - 1], n, Threshold(Start(l), target, |splits|)))
  }

  /** Passing boundary `n` meets no record but the one at `n`. */
  lemma PassRecord(l: Layout, b: Bytes, lo: nat, n: nat, next: nat, threshold: real)
    requires Reach(l, b, Start(l), n) && Next(l, b, n) == Some(next)
    requires lo == n || (AllBelow(l, b, lo, n, threshold) && n as real < threshold)
    ensures AllBelow(l, b, lo, next, threshold)
  {
    if !AllBelow(l, b, lo, next, threshold) {
      var m: nat :| lo < m < next && RecordAt(l, b, m) && m as real >= threshold;
      assert n < m;
      NothingBetween(l, b, Start(l), n, m);
    }
  }

  lemma PlacedSnoc(l: Layout, b: Bytes, splits: seq<nat>, target: real, n: nat)
    requires splits != [] && Placed(l, b, splits, target)
    requires n as real >= Threshold(Start(l), target, |splits|)
    requires AllBelow(l, b, splits[|splits| - 1], n, Threshold(Start(l), target, |splits|))
    ensures Placed(l, b, splits + [n], target)
  {
  }

  /** The walk passes boundary `n` without cutting there. */
  lemma NoCut(l: Layout, b: Bytes, njobs: nat, splits: seq<nat>, target: real, n: nat, next: nat)
    requires Cutting(l, b, njobs, splits, target, n) && Next(l, b, n) == Some(next)
    requires |splits| < njobs ==> n as real < Threshold(Start(l), target, |splits|)
    ensures Cutting(l, b, njobs, splits, target, next)
  {
    ReachStep(l, b, Start(l), n);
    if |splits| < njobs {
      PassRecord(l, b, splits[|splits| - 1], n, next, Threshold(Start(l), target, |splits|));
    }
  }

  lemma CutIsLater(l: Layout, b: Bytes, njobs: nat, splits: seq<nat>, target: real, n: nat)
    requires Spine(l, b, njobs, splits, n) && target > 0.0
    requires n as real >= Threshold(Start(l), target, |splits|)
    ensures splits[|splits| - 1] < n
  {
    if |splits| == 1 {
      assert Threshold(Start(l), target, 1) == Threshold(Start(l), target, 0) + target;
    }
  }

  lemma SpineSnoc(l: Layout, b: Bytes, njobs: nat, splits: seq<nat>, n: nat, next: nat)
    requires Spine(l, b, njobs, splits, n) && Next(l, b, n) == Some(next)
    requires |splits| < njobs && splits[|splits| - 1] < n
    ensures Spine(l, b, njobs, splits + [n], next)
  {
    ReachStep(l, b, Start(l), n);
  }

  /** The walk cuts at boundary `n` and passes it. */
  lemma Cut(l: Layout, b: Bytes, njobs: nat, splits: seq<nat>, target: real, n: nat, next: nat)
    requires Cutting(l, b, njobs, splits, target, n) && Next(l, b, n) == Some(next) && target > 0.0
    requires |splits| < njobs && n as real >= Threshold(Start(l), target, |splits|)
    ensures Cutting(l, b, njobs, splits + [n], target, next)
  {
    CutIsLater(l, b, njobs, splits, target, n);
    SpineSnoc(l, b, njobs, splits, n, next);
    PlacedSnoc(l, b, splits, target, n);
    PassRecord(l, b, n, n, next, Threshold(Start(l), target, |splits| + 1));
  }

  lemma {:induction false} WalkEnds(l: Layout, b: Bytes, a: nat, n: nat, m: nat)
    requires Reach(l, b, a, n) && Reach(l, b, a, m) && Next(l, b, n).None?
    ensures m <= n
    decreases |b| - a
  {
    if a == m {
      ReachForward(l, b, a, n);
    } else if a != n {
      WalkEnds(l, b, Next(l, b, a).value, n, m);
    }
  }

  lemma {:induction false} ReachWithin(l: Layout, b: Bytes, a: nat, m: nat)
    requires Reach(l, b, a, m) && a <= |b|
    ensures m <= |b|
    decreases |b| - a
  {
    if a != m {
      ReachWithin(l, b, Next(l, b, a).value, m);
    }
  }

  /** Where the walk ends, no record follows. */
  lemma PassEnd(l: Layout, b: Bytes, lo: nat, n: nat, hi: nat, threshold: real)
    requires Reach(l, b, Start(l), n) && Next(l, b, n).None? && AllBelow(l, b, lo, n, threshold)
    ensures AllBelow(l, b, lo, hi, threshold)
  {
    if !AllBelow(l, b, lo, hi, threshold) {
      var m: nat :| lo < m < hi && RecordAt(l, b, m) && m as real >= threshold;
      WalkEnds(l, b, Start(l), n, m);
    }
  }

  lemma TilesDone(l: Layout, b: Bytes, njobs: nat, splits: seq<nat>, n: nat)
    requires Spine(l, b, njobs, splits, n) && Start(l) <= |b|
    ensures Tiles(l, b, njobs, splits + [|b|])
  {
    ReachWithin(l, b, Start(l), n);
  }

  lemma PlacedDone(l: Layout, b: Bytes, njobs: nat, splits: seq<nat>, target: real, n: nat)
    requires Cutting(l, b, njobs, splits, target, n) && Next(l, b, n).None?
    ensures WellPlaced(l, b, njobs, splits + [|b|], target)
  {
    if |splits| < njobs {
      PassEnd(l, b, splits[|splits| - 1], n, |b|, Threshold(Start(l), target, |splits|));
    }
  }

  /** The link types collected before block `n`. */
  predicate Prior(l: Layout, b: Bytes, linktypes: seq<nat>, n: nat) {
    l.Blocks? ==> Interfaces(l.end, b, 0) == linktypes + Interfaces(l.end, b, n)
  }

  method Collect(l: Layout, b: Bytes, linktypes: seq<nat>, n: nat, next: nat) returns (r: seq<nat>)
    requires Prior(l, b, linktypes, n) && Next(l, b, n) == Some(next)
    ensures Prior(l, b, r, next)
  {
    r := linktypes;
    if l.Blocks? && U32(l.end, b, n) == 1 {
      r := r + [U16E(l.end, b, n + 8)];
    }
  }

  /** The index walk: cut points, and for pcapng the link type of every interface. */
  method Index(l: Layout, b: Bytes, njobs: nat) returns (splits: seq<nat>, linktypes: seq<nat>)
    requires njobs >= 1 && Start(l) <= |b|
    ensures Tiles(l, b, njobs, splits) && WellPlaced(l, b, njobs, splits, Target(l, b, njobs))
    ensures l.Blocks? ==> linktypes == Interfaces(l.end, b, 0)
  {
    var n, target := Start(l), Target(l, b, njobs);
    var nextt := n as real + target;
    splits, linktypes := [n], [];
    while true
      invariant Cutting(l, b, njobs, splits, target, n)
      invariant nextt == Threshold(Start(l), target, |splits|)
      invariant Prior(l, b, linktypes, n)
      decreases |b| - n
    {
      var next := Next(l, b, n);
      if next.None? {
        break;
      }
      linktypes := Collect(l, b, linktypes, n, next.value);
      if n as real >= nextt && |splits| < njobs {
        ReachForward(l, b, Start(l), n);
        TargetPositive(l, b, njobs);
        Cut(l, b, njobs, splits, target, n, next.value);
        splits := splits + [n];
        nextt := nextt + target;
      } else {
        NoCut(l, b, njobs, splits, target, n, next.value);
      }
      n := next.value;
    }
    TilesDone(l, b, njobs, splits, n);
    PlacedDone(l, b, njobs, splits, target, n);
    splits := splits + [|b|];
  }

  lemma TargetPositive(l: Layout, b: Bytes, njobs: nat)
    requires njobs > 0 && Start(l) < |b|
    ensures Target(l, b, njobs) > 0.0
  {
  }

  /** Recognize the format and cut the capture into at most `njobs` ranges. */
  method Detect(b: Bytes, njobs: nat) returns (r: Result<(Format, seq<nat>)>)
    requires njobs >= 1
    ensures FormatOf(b).Err? ==> r == Err(FormatOf(b).error)
    ensures FormatOf(b).Ok? ==>
      && r.Ok? && r.value.0 == FormatOf(b).value
      && var l := FormatOf(b).value.Layout();
        Tiles(l, b, njobs, r.value.1) && WellPlaced(l, b, njobs, r.value.1, Target(l, b, njobs))
  {
    var layout := LayoutOf(b);
    if layout.Err? {
      return Err(layout.error);
    }
    var splits, linktypes := Index(layout.value, b, njobs);
    match layout.value
    case Records(e) =>
      r := Ok((Pcap(e, U32(e, b, 20)), splits));
    case Blocks(e) =>
      r := Ok((PcapNg(e, linktypes), splits));
  }

  // ---- ranges ----

  function Flatten<T>(s: seq<seq<T>>): seq<T> {
    if s == [] then [] else Flatten(s[..|s| - 1]) + s[|s| - 1]
  }

  /** What each worker meets in its range between two consecutive splits. */
  ghost function Shards(f: Format, b: Bytes, splits: seq<nat>): (s: seq<seq<Visit>>)
    requires splits != []
    ensures |s| + 1 == |splits|
  {
    seq(|splits| - 1, i requires 0 <= i < |splits| - 1 => Visits(f, b, splits[i], splits[i + 1]))
  }

  /** Walking consecutive ranges one after another is walking the whole capture, including
      a truncated record at its end. */
  lemma ShardsTile(f: Format, b: Bytes, njobs: nat, splits: seq<nat>)
    requires Tiles(f.Layout(), b, njobs, splits)
    ensures Flatten(Shards(f, b, splits)) == Visits(f, b, Start(f.Layout()), |b|)
  {
    var s := Shards(f, b, splits);
    ShardsTilePrefix(f, b, njobs, splits, |s|);
    assert s[..|s|] == s;
  }

  lemma {:induction false} ShardsTilePrefix(f: Format, b: Bytes, njobs: nat, splits: seq<nat>, n: nat)
    requires Tiles(f.Layout(), b, njobs, splits) && n < |splits|
    ensures Flatten(Shards(f, b, splits)[..n]) == Visits(f, b, splits[0], splits[n])
  {
    var s := Shards(f, b, splits);
    if n > 0 {
      ShardsTilePrefix(f, b, njobs, splits, n - 1);
      assert s[..n][..n - 1] == s[..n - 1];
      if splits[n - 1] <= splits[n] {
        VisitsSplit(f, b, splits[0], splits[n - 1], splits[n]);
      }
    }
  }
}
