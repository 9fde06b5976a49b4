/** Concrete frames on which promises of the system fail, one for each exact condition. */
module Witnesses {
  import opened Wire
  import opened Mask
  import opened IngressParser
  import opened Runs
  import opened Switch
  import opened Capture
  import opened Agreement
  import opened Parsers
  import opened Replay
  import CaptureWriter
  import Offline
  import opened ControlPlane
  import History
  import LiveMonitor
  import Bits

  /** A Short header whose DCID bytes are all 0x11. */
  function ShortFrame(): (f: Bytes)
    ensures |f| == 100
  {
    Sample(0x45, 0, 0x40, 0)
  }

  /** A Long header of length 8 with the same DCID bytes and addresses. */
  function LongFrame(first: bv8): (f: Bytes)
    ensures |f| == 100
  {
    Sample(0x45, 0, first, 8)
  }

  const INITIAL_BYTE: bv8 := 0xC0
  const HANDSHAKE_BYTE: bv8 := 0xE0

  /** What the switch sees of a sample frame. */
  function ObsOf(f: Bytes): Obs
    requires ParseSpec(f).Accepted?
  {
    Seen(f, 0)[0]
  }

  lemma ShortSeen()
    ensures var f := ShortFrame();
      && ParseSpec(f).Accepted? && Plain(f) && Seen(f, 0) == [ObsOf(f)]
      && ParseSpec(f).quic.Short? && ObsOf(f).quic.Valid() && ObsOf(f).quic.Dcid()[0] == 0x11
  {
    SampleShort(0x45, 0, 0);
  }

  lemma LongSeen(first: bv8)
    requires IsLongByte(first)
    ensures var f := LongFrame(first);
      && ParseSpec(f).Accepted? && Plain(f) && Seen(f, 0) == [ObsOf(f)]
      && ParseSpec(f).quic.Long? && ParseSpec(f).quic.long.dcidLen == 8
      && ParseSpec(f).quic.long.packetType == ((first >> 4) & 3) as bv2
      && ObsOf(f).quic.Valid() && ObsOf(f).tuple == ParseSpec(f).tuple
  {
    OnlyPort(0x45, 0, first, 8, 36);
  }

  lemma HandshakeSeen()
    ensures IsLongByte(HANDSHAKE_BYTE) && ((HANDSHAKE_BYTE >> 4) & 3) as bv2 == HANDSHAKE
  {
  }

  lemma SameTuple()
    requires ParseSpec(ShortFrame()).Accepted? && ParseSpec(LongFrame(HANDSHAKE_BYTE)).Accepted?
    ensures ParseSpec(ShortFrame()).tuple == ParseSpec(LongFrame(HANDSHAKE_BYTE)).tuple
  {
    var f, g := ShortFrame(), LongFrame(HANDSHAKE_BYTE);
    assert forall i :: 26 <= i < 38 ==> f[i] == g[i];
    assert f[26..30] == g[26..30] && f[30..34] == g[30..34];
  }

  /** The Short and the Handshake that teaches its length, as the switch sees them. */
  lemma Teaching(h: Hashes) returns (short: Obs, hs: Obs)
    ensures Seen(ShortFrame(), 0) == [short] && Seen(LongFrame(HANDSHAKE_BYTE), 0) == [hs]
    ensures short.quic.Short? && short.force == 0 && short.quic.Valid() && short.quic.Dcid()[0] == 0x11
    ensures Teaches(h, hs, Key(h, short)) && hs.tuple == short.tuple && hs.quic.Valid() && hs.quic.long.dcidLen == 8
  {
    ShortSeen();
    HandshakeSeen();
    LongSeen(HANDSHAKE_BYTE);
    SameTuple();
    short, hs := ObsOf(ShortFrame()), ObsOf(LongFrame(HANDSHAKE_BYTE));
  }

  lemma RunOfTwo(f: Bytes, g: Bytes)
    ensures RunOf([f, g]) == [] + Seen(f, 0) + Seen(g, 0)
  {
    assert [f, g] == [] + [f] + [g];
    RunSnoc([], f);
    RunSnoc([] + [f], g);
  }

  const ANY_HASHES: Hashes := Hashes(_ => 0, _ => 0)

  /** Results do depend on packet order: the two orders of these frames leave different
      totals under some CRC-32. */
  lemma OrderVisible()
    ensures var s, l := ShortFrame(), LongFrame(HANDSHAKE_BYTE);
      exists h: Hashes, g: Gauge :: Tally(h, RunOf([s, l]), g) != Tally(h, RunOf([l, s]), g)
  {
    var short, hs := Teaching(ANY_HASHES);
    History.SwapMatters(ANY_HASHES, [], short, hs);
    var crc32: Bytes -> nat :| !History.SwapInvisible(WithCrc32(ANY_HASHES, crc32), [], short, hs);
    var h := WithCrc32(ANY_HASHES, crc32);
    var g :| Tally(h, [] + [short] + [hs], g) != Tally(h, [] + [hs] + [short], g);
    RunOfTwo(ShortFrame(), LongFrame(HANDSHAKE_BYTE));
    RunOfTwo(LongFrame(HANDSHAKE_BYTE), ShortFrame());
  }

  /** The row that the offline tool finds in a frame on its own. */
  function RowAlone(f: Bytes): Option<Row> {
    FrameRow(f, 0, |f|, LT_ETHER)
  }

  lemma PlainAlone(f: Bytes)
    requires Plain(f) && ParseSpec(f).Accepted?
    ensures RowAlone(f).Some? && Carries(RowAlone(f).value, ObsOf(f))
  {
    assert f[0..|f|] == f;
    PlainFrame(f, 0, |f|);
  }

  /** The offline tool does not mirror the switch on a Short before its Handshake: under some
      CRC-32 the two assign different buckets. */
  lemma MirrorBreaks()
    ensures var s, l := ShortFrame(), LongFrame(HANDSHAKE_BYTE);
      && RowAlone(s).Some? && RowAlone(l).Some?
      && exists h: Hashes :: !Alike(h, [RowAlone(s).value, RowAlone(l).value], RunOf([s, l]))
  {
    var short, hs := Teaching(ANY_HASHES);
    ShortSeen();
    HandshakeSeen();
    LongSeen(HANDSHAKE_BYTE);
    PlainAlone(ShortFrame());
    PlainAlone(LongFrame(HANDSHAKE_BYTE));
    RunOfTwo(ShortFrame(), LongFrame(HANDSHAKE_BYTE));
    var rows, run := [RowAlone(ShortFrame()).value, RowAlone(LongFrame(HANDSHAKE_BYTE)).value], [short, hs];
    assert RunOf([ShortFrame(), LongFrame(HANDSHAKE_BYTE)]) == run;
    EarlyShort(ANY_HASHES, rows, short, hs);
    var crc32 := MisfitSeparates(ANY_HASHES, rows, run, 0);
  }

  /** The first QUIC packet of a run raises a digest. */
  lemma FirstDigest(h: Hashes, f: Bytes)
    requires ParseSpec(f).Accepted?
    ensures DigestFor(h, [], f, 0) == Some(DigestOf(ParseSpec(f)))
  {
    assert Tally(h, [], Hits(BucketOf(h, [], ObsOf(f)))) == 0;
  }

  /** A CRC-32 that singles out the hash input of the empty connection ID. */
  const EMPTY_MARKED: Hashes := Hashes(_ => 0, Marking(Pad20([])))

  lemma MarkedBucket(input: Bytes)
    ensures HashBucket(EMPTY_MARKED, input) == if input == Pad20([]) then 1 else 0
  {
  }

  /** The switch keeps no DCID byte of a first Short. */
  lemma NothingKept(f: Bytes)
    requires ParseSpec(f).Accepted? && ParseSpec(f).quic.Short?
    ensures BucketOf(EMPTY_MARKED, [], ObsOf(f)) == HashBucket(EMPTY_MARKED, Pad20([]))
  {
    assert EffLen(EMPTY_MARKED, [], ObsOf(f)) == 0;
    assert Cid(EMPTY_MARKED, [], ObsOf(f)) == [];
  }

  /** The digest of any first Short with a nonzero DCID byte: the monitor hashes 20 bytes, the
      switch none, and under this CRC-32 they disagree about the bucket. */
  lemma ShortDigestMisread(f: Bytes, i: nat)
    requires ParseSpec(f).Accepted? && ParseSpec(f).quic.Short? && i < 20 && ParseSpec(f).quic.Dcid()[i] != 0
    ensures var d := DigestOf(ParseSpec(f));
      && DigestFor(EMPTY_MARKED, [], f, 0) == Some(d)
      && MonitorBucket(EMPTY_MARKED, Be(d.dcid), d.dcidLen) == Some(0) && BucketOf(EMPTY_MARKED, [], ObsOf(f)) == 1
  {
    var dcid := ParseSpec(f).quic.Dcid();
    FirstDigest(EMPTY_MARKED, f);
    MonitorInputIsPadding(dcid, 20);
    assert Pad20(Take(dcid, 20)) != Pad20([]) by {
      assert Pad20(Take(dcid, 20))[i] != Pad20([])[i];
    }
    MarkedBucket(Pad20(Take(dcid, 20)));
    MarkedBucket(Pad20([]));
    NothingKept(f);
  }

  lemma ShortDigestExample()
    ensures var f := ShortFrame();
      && ParseSpec(f).Accepted?
      && MonitorBucket(EMPTY_MARKED, Be(DigestOf(ParseSpec(f)).dcid), DigestOf(ParseSpec(f)).dcidLen)
      != Some(BucketOf(EMPTY_MARKED, [], ObsOf(f)))
  {
    ShortSeen();
    ShortDigestMisread(ShortFrame(), 0);
  }

  /** The slot of that Short is within the monitor's width, and yet another one is labelled. */
  lemma ShortLabelAstray()
    ensures var f := ShortFrame();
      && ParseSpec(f).Accepted? && DigestFor(EMPTY_MARKED, [], f, 0) == Some(DigestOf(ParseSpec(f)))
      && PacketCounter.IndexOf(BucketOf(EMPTY_MARKED, [], ObsOf(f))) == 1
      && LiveMonitor.InReach(1, LiveMonitor.SCRIPT_BITS)
      && LiveMonitor.IndexOf(EMPTY_MARKED, LiveMonitor.SCRIPT_BITS, DigestOf(ParseSpec(f))) == Some(0)
  {
    ShortSeen();
    ShortDigestMisread(ShortFrame(), 0);
    LiveMonitor.LowOne(LiveMonitor.SCRIPT_BITS);
  }

  /** A CRC-32 that sends everything to bucket 0x400. */
  const ALL_0X400: Hashes := Hashes(_ => 0, _ => 0x400)

  lemma SlotZero()
    ensures Bits.LowBits(0x400, LiveMonitor.SCRIPT_BITS) == 0
  {
    Bits.Widths();
  }

  lemma AlwaysBucket0x400(run: seq<Obs>, o: Obs)
    ensures BucketOf(ALL_0X400, run, o) == 0x400
  {
  }

  lemma IndexOfBucket(d: Digest)
    requires MonitorBucket(ALL_0X400, Be(d.dcid), d.dcidLen) == Some(0x400)
    ensures LiveMonitor.IndexOf(ALL_0X400, LiveMonitor.SCRIPT_BITS, d) == Some(0)
  {
    SlotZero();
  }

  lemma Recomputes0x400(d: Digest)
    requires d.dcidLen > 0
    ensures MonitorBucket(ALL_0X400, Be(d.dcid), d.dcidLen) == Some(0x400)
  {
  }

  lemma MissesSlot(f: Bytes)
    requires ParseSpec(f).Accepted? && ParseSpec(f).dcidLen > 0
    ensures DigestFor(ALL_0X400, [], f, 0) == Some(DigestOf(ParseSpec(f)))
    ensures LiveMonitor.IndexOf(ALL_0X400, LiveMonitor.SCRIPT_BITS, DigestOf(ParseSpec(f))) == Some(0)
    ensures PacketCounter.IndexOf(BucketOf(ALL_0X400, [], ObsOf(f))) == 0x400
  {
    FirstDigest(ALL_0X400, f);
    AlwaysBucket0x400([], ObsOf(f));
    Recomputes0x400(DigestOf(ParseSpec(f)));
    IndexOfBucket(DigestOf(ParseSpec(f)));
  }

  /** The monitor's 10-bit index is not the counter's slot: the digest of this frame labels
      slot 0, and the switch counted slot 0x400. */
  lemma LabelMissesSlot()
    ensures var f := LongFrame(INITIAL_BYTE);
      && ParseSpec(f).Accepted?
      && LiveMonitor.IndexOf(ALL_0X400, LiveMonitor.SCRIPT_BITS, DigestOf(ParseSpec(f))) == Some(0)
      && PacketCounter.IndexOf(BucketOf(ALL_0X400, [], ObsOf(f))) == 0x400
  {
    assert IsLongByte(INITIAL_BYTE);
    LongSeen(INITIAL_BYTE);
    MissesSlot(LongFrame(INITIAL_BYTE));
  }

  // ---- the conditions can be met ----

  lemma HandshakeThenShort(h: Hashes) returns (short: Obs, hs: Obs)
    ensures RunOf([LongFrame(HANDSHAKE_BYTE), ShortFrame()]) == [hs, short]
    ensures short.quic.Short? && short.force == 0 && hs.force == 0 && hs.tuple == short.tuple
    ensures IsHandshake(hs.quic) && hs.quic.long.dcidLen == 8 && Teaches(h, hs, Key(h, short))
  {
    short, hs := Teaching(h);
    RunOfTwo(LongFrame(HANDSHAKE_BYTE), ShortFrame());
  }

  lemma PairIsSettled(h: Hashes, hs: Obs, short: Obs)
    requires IsHandshake(hs.quic) && short.quic.Short? && Teaches(h, hs, Key(h, short))
    ensures History.Stable(h, [hs, short]) && History.Ordered(h, [hs, short])
  {
    var run := [hs, short];
    assert run[..1] == [hs] && hs in run[..1];
    assert History.Taught(h, run[..1], Key(h, short));
  }

  lemma PairMeetsConditions(h: Hashes, hs: Obs, short: Obs, lens: Offline.Lengths)
    requires IsHandshake(hs.quic) && short.quic.Short? && hs.tuple == short.tuple
    requires hs.quic.long.dcidLen == 8 && hs.force == 0 && short.force == 0
    ensures Conditions(h, [hs, short], lens)
  {
    var run := [hs, short];
    assert run[..1] == [hs] && hs in run[..1];
    assert HasHandshake(run[..1], short.tuple);
  }

  /** A Handshake followed by its Short is a settled run, and meets the conditions of the
      comparison whatever the hash functions and the learned lengths. */
  lemma ConditionsMet(h: Hashes, lens: Offline.Lengths)
    ensures var run := RunOf([LongFrame(HANDSHAKE_BYTE), ShortFrame()]);
      |run| == 2 && History.Stable(h, run) && History.Ordered(h, run) && Conditions(h, run, lens)
  {
    var short, hs := HandshakeThenShort(h);
    PairIsSettled(h, hs, short);
    PairMeetsConditions(h, hs, short, lens);
  }

  /** A capture of these two frames. */
  ghost function SmallCapture(): Bytes {
    CaptureWriter.PcapFile(Little, false, Zeros(16), 1, SmallRecords(), [])
  }

  function SmallRecords(): (recs: seq<CaptureWriter.Record>)
    ensures |recs| == 2 && CaptureWriter.AllRecords(recs)
    ensures recs[0].frame == LongFrame(HANDSHAKE_BYTE) && recs[1].frame == ShortFrame()
  {
    [CaptureWriter.Record(Zeros(8), 100, LongFrame(HANDSHAKE_BYTE)), CaptureWriter.Record(Zeros(8), 100, ShortFrame())]
  }

  lemma SmallCaptureReads()
    ensures var b := SmallCapture();
      && FormatOf(b).Ok? && FramesOf(b) == [LongFrame(HANDSHAKE_BYTE), ShortFrame()]
      && CaptureWriter.MetAll(b, VisitsOf(b), 24, SmallRecords(), 1)
  {
    CaptureWriter.PcapHeader(Little, false, Zeros(16), 1, SmallRecords(), []);
    CaptureWriter.PcapRoundTrip(Little, false, Zeros(16), 1, SmallRecords(), []);
    PcapReplayed(Little, false, Zeros(16), 1, SmallRecords(), []);
    TwoPresent(SmallRecords(), LongFrame(HANDSHAKE_BYTE), ShortFrame());
  }

  /** The capture is comparable under all hash functions, so the theorems about comparable
      captures speak of something. */
  lemma SmallCaptureComparable(h: Hashes)
    ensures Comparable(h, SmallCapture())
  {
    SmallCaptureReads();
    SmallRecordsPlain();
    PlainVisits(SmallCapture(), SmallRecords());
    ConditionsMet(h, Offline.LearnMap(RowsOf(VisitsOf(SmallCapture()))));
  }

  lemma SmallRecordsPlain()
    ensures forall i :: 0 <= i < 2 ==> Plain(SmallRecords()[i].frame)
  {
    HandshakeSeen();
    LongSeen(HANDSHAKE_BYTE);
    ShortSeen();
  }

  lemma TwoPresent(recs: seq<CaptureWriter.Record>, x: Bytes, y: Bytes)
    requires |recs| == 2 && recs[0].frame == x && recs[1].frame == y
    ensures Present(RecordFrames(recs)) == [x, y]
  {
    var s := RecordFrames(recs);
    assert s == [Some(x), Some(y)];
    assert s[..1] == [Some(x)] && s[..1][..0] == [];
    assert Present(s[..1]) == Present(s[..1][..0]) + [x];
    assert Present(s) == Present(s[..1]) + [y];
  }

  lemma PlainVisits(b: Bytes, recs: seq<CaptureWriter.Record>)
    requires FormatOf(b).Ok? && CaptureWriter.MetAll(b, VisitsOf(b), 24, recs, 1)
    requires forall i :: 0 <= i < |recs| ==> Plain(recs[i].frame)
    ensures forall i :: 0 <= i < |VisitsOf(b)| ==> AlikeVisit(b, VisitsOf(b)[i])
  {
    var vs := VisitsOf(b);
    forall i | 0 <= i < |vs| ensures AlikeVisit(b, vs[i]) {
      PlainVisitAlike(b, vs[i], CaptureWriter.Offset(24, CaptureWriter.RecordSizes(recs), i) + 16, recs[i].frame);
    }
  }

  lemma PlainVisitAlike(b: Bytes, v: Visit, off: nat, frame: Bytes)
    requires CaptureWriter.Met(b, v, off, frame, 1) && Plain(frame)
    ensures AlikeVisit(b, v)
  {
    PlainFrame(b, v.off, v.end);
  }
}
