/** End to end: the frames of a capture through the switch, the same capture through the
    offline tool, and equal counts in every bucket. */
module Replay {
  import opened Wire
  import opened IngressParser
  import opened Runs
  import opened Switch
  import opened Tables
  import opened Capture
  import Offline
  import opened Agreement
  import opened Parsers
  import CaptureWriter
  import Accounting
  import opened Sums

  // ---- the frames of a capture ----

  /** The frames that the switch sees when the capture is replayed. */
  function Frames(b: Bytes, vs: seq<Visit>): seq<Bytes> {
    if vs == [] then []
    else
      var v := vs[|vs| - 1];
      Frames(b, vs[..|vs| - 1]) + if v.Frame? && v.off <= v.end <= |b| then [b[v.off..v.end]] else []
  }

  /** The history of a switch that processed `frames` under the length-aware arm. */
  function RunOf(frames: seq<Bytes>): seq<Obs> {
    if frames == [] then [] else RunOf(frames[..|frames| - 1]) + Seen(frames[|frames| - 1], 0)
  }

  lemma RunSnoc(frames: seq<Bytes>, f: Bytes)
    ensures RunOf(frames + [f]) == RunOf(frames) + Seen(f, 0)
  {
    assert (frames + [f])[..|frames|] == frames;
  }

  /** An Ethernet record whose frame both parsers read alike, or a block without a frame.
      `Parsers.PlainFrame` says which header fields guarantee that. */
  predicate AlikeVisit(b: Bytes, v: Visit) {
    && v != Fault
    && (v.Frame? ==> v.linktype == LT_ETHER && v.off <= v.end <= |b| && ReadAlike(b, v.off, v.end))
  }

  /** The row recorded for a frame is the row that the frame parser returns. */
  predicate Honest(b: Bytes, v: Visit) {
    v.Frame? ==> v.end <= |b| && v.row == FrameRow(b, v.off, v.end, v.linktype)
  }

  lemma {:induction false} VisitsHonest(f: Format, b: Bytes, n: nat, stop: nat)
    ensures forall i :: 0 <= i < |Visits(f, b, n, stop)| ==> Honest(b, Visits(f, b, n, stop)[i])
    decreases |b| - n
  {
    if n < stop && Next(f.Layout(), b, n).Some? {
      var next := Next(f.Layout(), b, n).value;
      VisitsHonest(f, b, next, stop);
      VisitHonest(f, b, n);
    }
  }

  lemma VisitHonest(f: Format, b: Bytes, n: nat)
    requires Next(f.Layout(), b, n).Some?
    ensures Honest(b, VisitAt(f, b, n))
  {
  }

  lemma SeenValid(f: Bytes)
    ensures |Seen(f, 0)| <= 1
    ensures forall o :: o in Seen(f, 0) ==> o.quic.Valid()
  {
  }

  /** Rows of the walk and history of the switch describe the same packets in step. */
  lemma {:induction false} WalkPairs(b: Bytes, vs: seq<Visit>)
    requires forall i :: 0 <= i < |vs| ==> AlikeVisit(b, vs[i]) && Honest(b, vs[i])
    ensures Paired(RowsOf(vs), RunOf(Frames(b, vs)))
  {
    if vs != [] {
      var n := |vs| - 1;
      WalkPairs(b, vs[..n]);
      assert vs == vs[..n] + [vs[n]];
      PairVisit(b, vs[..n], vs[n]);
    }
  }

  lemma PairVisit(b: Bytes, vs: seq<Visit>, v: Visit)
    requires Paired(RowsOf(vs), RunOf(Frames(b, vs))) && AlikeVisit(b, v) && Honest(b, v)
    ensures Paired(RowsOf(vs + [v]), RunOf(Frames(b, vs + [v])))
  {
    RowsSnoc(vs, v);
    assert (vs + [v])[..|vs|] == vs;
    if v.Frame? {
      var f := b[v.off..v.end];
      RunSnoc(Frames(b, vs), f);
      SeenValid(f);
      PairMore(RowsOf(vs), RunOf(Frames(b, vs)), v.row, Seen(f, 0));
    } else {
      assert RowsOf(vs + [v]) == RowsOf(vs) && Frames(b, vs + [v]) == Frames(b, vs);
    }
  }

  lemma PairMore(rows: seq<Row>, run: seq<Obs>, row: Option<Row>, seen: seq<Obs>)
    requires Paired(rows, run) && |seen| <= 1 && (row.Some? <==> seen != [])
    requires row.Some? ==> Carries(row.value, seen[0]) && seen[0].quic.Valid()
    ensures Paired(rows + if row.Some? then [row.value] else [], run + seen)
  {
  }

  /** Everything a walk over the whole capture meets. */
  function VisitsOf(b: Bytes): seq<Visit>
    requires FormatOf(b).Ok?
  {
    var f := FormatOf(b).value;
    Visits(f, b, Start(f.Layout()), |b|)
  }

  function FramesOf(b: Bytes): seq<Bytes>
    requires FormatOf(b).Ok?
  {
    Frames(b, VisitsOf(b))
  }

  /** A capture within the conditions of the theorem: Ethernet frames that both parsers read
      alike, legal lengths, and Handshakes that settle every length before it is needed. */
  ghost predicate Comparable(h: Hashes, b: Bytes) {
    && FormatOf(b).Ok?
    && (forall i :: 0 <= i < |VisitsOf(b)| ==> AlikeVisit(b, VisitsOf(b)[i]))
    && Conditions(h, RunOf(FramesOf(b)), Offline.LearnMap(RowsOf(VisitsOf(b))))
  }

  /** A visit that brings this frame, or none. */
  predicate Brings(b: Bytes, v: Visit, frame: Option<Bytes>) {
    match frame
    case None => v == NoFrame
    case Some(f) => v.Frame? && v.off <= v.end <= |b| && b[v.off..v.end] == f
  }

  function Present(frames: seq<Option<Bytes>>): seq<Bytes> {
    if frames == [] then []
    else
      var last := frames[|frames| - 1];
      Present(frames[..|frames| - 1]) + if last.Some? then [last.value] else []
  }

  lemma {:induction false} FramesBrought(b: Bytes, vs: seq<Visit>, frames: seq<Option<Bytes>>)
    requires |vs| == |frames| && forall i :: 0 <= i < |vs| ==> Brings(b, vs[i], frames[i])
    ensures Frames(b, vs) == Present(frames) && Fault !in vs
  {
    if vs != [] {
      var n := |vs| - 1;
      FramesBrought(b, vs[..n], frames[..n]);
      assert Brings(b, vs[n], frames[n]);
      assert vs == vs[..n] + [vs[n]];
    }
  }

  function RecordFrames(recs: seq<CaptureWriter.Record>): (s: seq<Option<Bytes>>)
    ensures |s| == |recs| && forall i :: 0 <= i < |recs| ==> s[i] == Some(recs[i].frame)
  {
    seq(|recs|, i requires 0 <= i < |recs| => Some(recs[i].frame))
  }

  function BlockFrames(ks: seq<CaptureWriter.Block>): (s: seq<Option<Bytes>>)
    ensures |s| == |ks|
    ensures forall i :: 0 <= i < |ks| ==>
      s[i] == if ks[i].Enhanced? || ks[i].Simple? then Some(ks[i].frame) else None
  {
    seq(|ks|, i requires 0 <= i < |ks| => if ks[i].Enhanced? || ks[i].Simple? then Some(ks[i].frame) else None)
  }

  /** Replaying a written pcap file shows the switch the frames that were written, and the
      offline tool reads it to its end. */
  lemma PcapReplayed(e: Endian, nano: bool, rest: Bytes, linktype: nat, recs: seq<CaptureWriter.Record>, tail: Bytes)
    requires |rest| == 16 && linktype < 0x1_0000_0000 && CaptureWriter.AllRecords(recs)
    requires Next(Records(e), CaptureWriter.PcapFile(e, nano, rest, linktype, recs, tail),
                  24 + |CaptureWriter.Join(CaptureWriter.RecordPieces(e, recs))|).None?
    ensures var b := CaptureWriter.PcapFile(e, nano, rest, linktype, recs, tail);
      FormatOf(b).Ok? && FramesOf(b) == Present(RecordFrames(recs)) && Fault !in VisitsOf(b)
  {
    CaptureWriter.PcapRoundTrip(e, nano, rest, linktype, recs, tail);
    RecordsBring(CaptureWriter.PcapFile(e, nano, rest, linktype, recs, tail), recs, linktype);
  }

  lemma RecordsBring(b: Bytes, recs: seq<CaptureWriter.Record>, linktype: nat)
    requires FormatOf(b).Ok? && CaptureWriter.MetAll(b, VisitsOf(b), 24, recs, linktype)
    ensures FramesOf(b) == Present(RecordFrames(recs)) && Fault !in VisitsOf(b)
  {
    var vs := VisitsOf(b);
    forall i | 0 <= i < |vs| ensures Brings(b, vs[i], RecordFrames(recs)[i]) {
      assert CaptureWriter.Met(b, vs[i], CaptureWriter.Offset(24, CaptureWriter.RecordSizes(recs), i) + 16,
                               recs[i].frame, linktype);
    }
    FramesBrought(b, vs, RecordFrames(recs));
  }

  /** The same for a written pcapng file. */
  lemma PcapNgReplayed(e: Endian, rest: Bytes, ks: seq<CaptureWriter.Block>, tail: Bytes)
    requires ks != [] && ks[0] == CaptureWriter.Section(e, rest) && CaptureWriter.AllBlocks(e, ks)
    requires Next(Blocks(e), CaptureWriter.PcapNgFile(e, ks, tail),
                  |CaptureWriter.Join(CaptureWriter.BlockPieces(e, ks))|).None?
    ensures var b := CaptureWriter.PcapNgFile(e, ks, tail);
      FormatOf(b).Ok? && FramesOf(b) == Present(BlockFrames(ks)) && Fault !in VisitsOf(b)
  {
    CaptureWriter.PcapNgRoundTrip(e, rest, ks, tail);
    BlocksBring(e, CaptureWriter.PcapNgFile(e, ks, tail), ks);
  }

  lemma BlocksBring(e: Endian, b: Bytes, ks: seq<CaptureWriter.Block>)
    requires FormatOf(b).Ok? && CaptureWriter.AllBlocks(e, ks)
    requires CaptureWriter.MetBlocks(e, b, VisitsOf(b), ks, CaptureWriter.LinkTypes(ks))
    ensures FramesOf(b) == Present(BlockFrames(ks)) && Fault !in VisitsOf(b)
  {
    var vs := VisitsOf(b);
    forall i | 0 <= i < |vs| ensures Brings(b, vs[i], BlockFrames(ks)[i]) {
      var n := CaptureWriter.Offset(0, CaptureWriter.RawSizes(CaptureWriter.ToRaws(e, ks)), i);
      assert CaptureWriter.MetBlock(b, vs[i], n, ks[i], CaptureWriter.LinkTypes(ks));
      BlockBrings(b, vs[i], n, ks[i], CaptureWriter.LinkTypes(ks));
    }
    FramesBrought(b, vs, BlockFrames(ks));
  }

  lemma BlockBrings(b: Bytes, v: Visit, n: nat, k: CaptureWriter.Block, linktypes: seq<nat>)
    requires CaptureWriter.MetBlock(b, v, n, k, linktypes)
    ensures Brings(b, v, if k.Enhanced? || k.Simple? then Some(k.frame) else None)
  {
  }

  /** Batch refines online: on every comparable capture the offline packet count of every
      bucket is the number of packets that the switch puts there. */
  lemma BatchRefinesOnline(h: Hashes, b: Bytes, bucket: nat)
    requires Comparable(h, b)
    ensures Offline.Serial(h, b).Ok?
    ensures Tally(h, RunOf(FramesOf(b)), Hits(bucket)) == Get(Offline.Serial(h, b).value.acc.bucketPkts, bucket)
  {
    var f := FormatOf(b).value;
    var vs := Visits(f, b, Start(f.Layout()), |b|);
    VisitsHonest(f, b, Start(f.Layout()), |b|);
    assert Fault !in vs by {
      assert forall i :: 0 <= i < |vs| ==> AlikeVisit(b, vs[i]);
    }
    WalkPairs(b, vs);
    RunsAgree(h, RowsOf(vs), RunOf(Frames(b, vs)), bucket);
  }

  /** For every capture whose frames both parsers read alike, whatever its lengths and order: switch and offline
      tool assign the same buckets under every CRC-32 exactly when, at each packet, the DCID
      bytes between the lengths they use are zero. */
  lemma CaptureAgreesExactly(h: Hashes, b: Bytes)
    requires FormatOf(b).Ok?
    requires forall i :: 0 <= i < |VisitsOf(b)| ==> AlikeVisit(b, VisitsOf(b)[i])
    ensures var rows, run := RowsOf(VisitsOf(b)), RunOf(FramesOf(b));
      && Paired(rows, run)
      && ((forall crc32: Bytes -> nat :: Alike(WithCrc32(h, crc32), rows, run))
            <==> (forall i :: 0 <= i < |run| ==> LengthsFit(h, rows, run, i)))
  {
    var f := FormatOf(b).value;
    VisitsHonest(f, b, Start(f.Layout()), |b|);
    WalkPairs(b, VisitsOf(b));
    RunAgreesExactly(h, RowsOf(VisitsOf(b)), RunOf(FramesOf(b)));
  }

  /** For every capture that can be read, whatever its frames: the packet counts of switch and
      offline tool are equal in every bucket under every CRC-32 exactly when the two hash the
      same inputs equally often. */
  lemma CaptureCountsExactly(h: Hashes, b: Bytes)
    requires FormatOf(b).Ok? && Fault !in VisitsOf(b)
    ensures var rows, run := RowsOf(VisitsOf(b)), RunOf(FramesOf(b));
      && Offline.Serial(h, b) == Ok(Offline.AnalysisOf(h, rows))
      && ((forall crc32: Bytes -> nat :: SameCounts(WithCrc32(h, crc32), rows, run)) <==>
            multiset(SwitchInputs(h, run)) ==
            multiset(OfflineInputs(Offline.Entries(Offline.LearnMap(rows), rows))))
  {
    CountsAgreeExactly(h, RowsOf(VisitsOf(b)), RunOf(FramesOf(b)));
  }

  // ---- a whole run of the switch ----

  /** The frame, coming after `before`, is a packet of bucket `bucket`. */
  predicate FallsIn(h: Hashes, before: seq<Bytes>, f: Bytes, bucket: nat) {
    Seen(f, 0) != [] && BucketOf(h, RunOf(before), Seen(f, 0)[0]) == bucket
  }

  /** How many of the digests were raised by packets of a bucket. */
  function DigestsFrom(h: Hashes, frames: seq<Bytes>, digests: seq<Option<Digest>>, bucket: nat): nat
    requires |digests| == |frames|
  {
    if frames == [] then 0
    else
      var n := |frames| - 1;
      DigestsFrom(h, frames[..n], digests[..n], bucket) +
      if digests[n].Some? && FallsIn(h, frames[..n], frames[n], bucket) then 1 else 0
  }

  /** For every bucket, the digests are as many as the history calls for. */
  ghost predicate DigestsMatch(h: Hashes, frames: seq<Bytes>, digests: seq<Option<Digest>>) {
    |digests| == |frames| && forall b: nat :: DigestsFrom(h, frames, digests, b) == Digests(h, RunOf(frames), b)
  }

  lemma DigestsMatchSnoc(h: Hashes, frames: seq<Bytes>, digests: seq<Option<Digest>>, f: Bytes)
    requires DigestsMatch(h, frames, digests)
    ensures DigestsMatch(h, frames + [f], digests + [DigestFor(h, RunOf(frames), f, 0)])
  {
    var frames', digests' := frames + [f], digests + [DigestFor(h, RunOf(frames), f, 0)];
    assert frames'[..|frames|] == frames && digests'[..|frames|] == digests;
    RunSnoc(frames, f);
    SeenValid(f);
    forall b: nat ensures DigestsFrom(h, frames', digests', b) == Digests(h, RunOf(frames'), b) {
      if Seen(f, 0) == [] {
        assert RunOf(frames) + [] == RunOf(frames);
      } else {
        Accounting.DigestStep(h, RunOf(frames), Seen(f, 0)[0], b);
        assert Seen(f, 0) == [Seen(f, 0)[0]];
      }
    }
  }

  /** The sizes of the frames that the parser accepts. */
  function AcceptedSizes(frames: seq<Bytes>): seq<nat> {
    if frames == [] then []
    else
      var f := frames[|frames| - 1];
      AcceptedSizes(frames[..|frames| - 1]) + if ParseSpec(f).Accepted? then [|f|] else []
  }

  lemma {:induction false} RunSizes(frames: seq<Bytes>)
    ensures Accounting.PacketSizes(RunOf(frames)) == AcceptedSizes(frames)
  {
    if frames != [] {
      RunSizes(frames[..|frames| - 1]);
    }
  }

  /** Run a fresh switch over frames under the length-aware arm: it has their history, and a
      bucket with n packets raised ceil(n / 2^32) of the digests, and its counters add up to the
      number and the bytes of the accepted frames. */
  method Run(h: Hashes, frames: seq<Bytes>) returns (sw: Ingress, digests: seq<Option<Digest>>)
    ensures fresh(sw) && sw.Valid() && sw.h == h && sw.run == RunOf(frames) && |digests| == |frames|
    ensures forall b: nat ::
      DigestsFrom(h, frames, digests, b) == (Tally(h, sw.run, Hits(b)) + 0xFFFF_FFFF) / 0x1_0000_0000
    ensures Low64(Sum(sw.flowPkts[..])) == Low64(|AcceptedSizes(frames)|)
    ensures Low64(Sum(sw.flowBytes[..])) == Low64(Sum(AcceptedSizes(frames)))
  {
    sw := new Ingress(h);
    digests := [];
    for i := 0 to |frames|
      invariant fresh(sw) && fresh(sw.dcidLenReg) && fresh(sw.quicPktCount) && fresh(sw.flowPkts) && fresh(sw.flowBytes)
      invariant sw.Valid() && sw.h == h && sw.forceLen == 0 && sw.run == RunOf(frames[..i])
      invariant DigestsMatch(h, frames[..i], digests)
    {
      assert frames[..i + 1] == frames[..i] + [frames[i]];
      RunSnoc(frames[..i], frames[i]);
      DigestsMatchSnoc(h, frames[..i], digests, frames[i]);
      var d := sw.Process(frames[i]);
      digests := digests + [d];
    }
    assert frames[..|frames|] == frames;
    forall b: nat ensures Digests(h, sw.run, b) == (Tally(h, sw.run, Hits(b)) + 0xFFFF_FFFF) / 0x1_0000_0000 {
      Accounting.DigestCount(h, sw.run, b);
    }
    RunSizes(frames);
    Accounting.SwitchSums(sw);
  }

  /** The cross-check of the offline report: every register entry of the switch that ran the
      capture is the offline count modulo 2^32. */
  lemma RegisterIsOfflineCount(sw: Ingress, b: Bytes, bucket: nat)
    requires Comparable(sw.h, b) && sw.Valid() && sw.run == RunOf(FramesOf(b)) && bucket < BUCKETS
    ensures Offline.Serial(sw.h, b).Ok?
    ensures sw.quicPktCount[bucket] == Low32(Get(Offline.Serial(sw.h, b).value.acc.bucketPkts, bucket))
  {
    BatchRefinesOnline(sw.h, b, bucket);
    assert sw.quicPktCount[..][bucket] == Low32(Totals(sw.h, sw.run, Register)[bucket]);
  }
}
