/** The cross-check of the offline report against the switch, from end to end: capture,
    switch, register dump, loader, and comparison with the offline counts. */
module CrossCheck {
  import opened Wire
  import opened Runs
  import opened Switch
  import opened Tables
  import Dump
  import opened Sums
  import opened Capture
  import Offline
  import opened Accounting
  import opened Replay

  /** The register as the dump reads it, on one pipe. */
  function RegEntries(counts: seq<nat>): (s: seq<Dump.RegEntry>)
    ensures |s| == |counts|
  {
    seq(|counts|, i requires 0 <= i < |counts| => Dump.RegEntry(i, [counts[i]]))
  }

  /** What the comparison loads for the switch side. */
  function Loaded(counts: seq<nat>): Result<Dump.Counts> {
    Dump.Reload(RegEntries(counts), 0)
  }

  lemma OneDimensional(n: nat)
    ensures Sum([n]) == n
  {
    assert [n][..0] == [];
  }

  lemma EntryShown(counts: seq<nat>, k: nat, n: nat)
    ensures Dump.ShownAs(RegEntries(counts), 0, (k, n)) <==> k < |counts| && counts[k] == n && n > 0
  {
    var ents := RegEntries(counts);
    OneDimensional(n);
    if k < |counts| && counts[k] == n && n > 0 {
      assert ents[k] in ents && Dump.Shown(ents[k], 0);
    }
    if Dump.ShownAs(ents, 0, (k, n)) {
      var e :| e in ents && Dump.Shown(e, 0) && (k, n) == (e.index, Sum(e.perPipe));
      OneDimensional(counts[e.index]);
    }
  }

  /** Printing and loading a register gives its nonzero entries and nothing else. */
  lemma LoadedIsNonzero(counts: seq<nat>, k: int)
    ensures Loaded(counts).Ok?
    ensures k in Loaded(counts).value <==> 0 <= k < |counts| && counts[k] > 0
    ensures k in Loaded(counts).value ==> Loaded(counts).value[k] == counts[k]
  {
    Dump.RoundTrip(RegEntries(counts), 0);
    FaithfulIsNonzero(counts, Loaded(counts), k);
  }

  lemma FaithfulIsNonzero(counts: seq<nat>, r: Result<Dump.Counts>, k: int)
    requires Dump.Faithful(RegEntries(counts), 0, r)
    ensures k in r.value <==> 0 <= k < |counts| && counts[k] > 0
    ensures k in r.value ==> r.value[k] == counts[k]
  {
    if k in r.value {
      assert Dump.HoldsShown(RegEntries(counts), 0, r.value, k);
      EntryShown(counts, k, r.value[k]);
    }
    if 0 <= k < |counts| {
      EntryShown(counts, k, counts[k]);
    }
  }

  /** For every comparable capture, the dumped and reloaded switch register is the offline
      table of packets per bucket, modulo 2^32: a bucket is missing on the switch side exactly
      when its count is a multiple of 2^32, and none is on the switch side only. */
  lemma CrossCheckClean(sw: Ingress, b: Bytes, k: int)
    requires Comparable(sw.h, b) && sw.Valid() && sw.run == RunOf(FramesOf(b))
    ensures Offline.Serial(sw.h, b).Ok? && Loaded(sw.quicPktCount[..]).Ok?
    ensures var pc, reg := Offline.Serial(sw.h, b).value.acc.bucketPkts, Loaded(sw.quicPktCount[..]).value;
      && (k in reg <==> k >= 0 && k in pc && Low32(pc[k]) != 0)
      && (k in reg ==> reg[k] == Low32(pc[k]))
  {
    LoadedIsNonzero(sw.quicPktCount[..], k);
    EntryIsCount(sw, b, k);
    SidesAgree(sw.quicPktCount[..], Loaded(sw.quicPktCount[..]).value, Offline.Serial(sw.h, b).value.acc.bucketPkts, k);
  }

  /** A register entry, if there is one at `k`, is the offline count modulo 2^32. */
  predicate Counted(counts: seq<nat>, pc: map<nat, nat>, k: int) {
    && (0 <= k < |counts| ==> counts[k] == Low32(Get(pc, k)))
    && (k >= 0 && k in pc ==> k < |counts|)
  }

  lemma EntryIsCount(sw: Ingress, b: Bytes, k: int)
    requires Comparable(sw.h, b) && sw.Valid() && sw.run == RunOf(FramesOf(b))
    ensures Offline.Serial(sw.h, b).Ok? && Counted(sw.quicPktCount[..], Offline.Serial(sw.h, b).value.acc.bucketPkts, k)
  {
    BatchRefinesOnline(sw.h, b, 0);
    if k >= 0 {
      BucketKeys(sw.h, b, k);
      if k < BUCKETS {
        RegisterIsOfflineCount(sw, b, k);
      }
    }
  }

  lemma SidesAgree(counts: seq<nat>, reg: Dump.Counts, pc: map<nat, nat>, k: int)
    requires Counted(counts, pc, k)
    requires k in reg <==> 0 <= k < |counts| && counts[k] > 0
    requires k in reg ==> reg[k] == counts[k]
    ensures k in reg <==> k >= 0 && k in pc && Low32(pc[k]) != 0
    ensures k in reg ==> reg[k] == Low32(pc[k])
  {
  }

  /** Below 2^32 packets in all, both sides have the same buckets with the same counts. */
  lemma CrossCheckSmall(sw: Ingress, b: Bytes, k: int)
    requires Comparable(sw.h, b) && sw.Valid() && sw.run == RunOf(FramesOf(b)) && |sw.run| < 0x1_0000_0000
    ensures Offline.Serial(sw.h, b).Ok? && Loaded(sw.quicPktCount[..]).Ok?
    ensures var pc, reg := Offline.Serial(sw.h, b).value.acc.bucketPkts, Loaded(sw.quicPktCount[..]).value;
      (k in reg <==> k >= 0 && k in pc) && (k in reg ==> reg[k] == pc[k])
  {
    CrossCheckClean(sw, b, k);
    if k >= 0 {
      SmallCount(sw.h, b, k);
    }
  }

  lemma SmallCount(h: Hashes, b: Bytes, k: nat)
    requires Comparable(h, b) && |RunOf(FramesOf(b))| < 0x1_0000_0000
    ensures Offline.Serial(h, b).Ok?
    ensures var pc := Offline.Serial(h, b).value.acc.bucketPkts;
      k in pc ==> 0 < pc[k] == Low32(pc[k])
  {
    var run := RunOf(FramesOf(b));
    BatchRefinesOnline(h, b, k);
    BucketKeys(h, b, k);
    assert k < BUCKETS ==> Tally(h, run, Hits(k)) <= |run| by {
      if k < BUCKETS {
        BucketWithinRun(h, run, k);
      }
    }
    SmallEntry(Offline.Serial(h, b).value.acc.bucketPkts, k, |run|);
  }

  lemma SmallEntry(pc: map<nat, nat>, k: nat, n: nat)
    requires k in pc ==> 0 < pc[k] <= n && n < 0x1_0000_0000
    ensures k in pc ==> 0 < pc[k] == Low32(pc[k])
  {
  }

  lemma BucketKeys(h: Hashes, b: Bytes, k: nat)
    requires Offline.Serial(h, b).Ok?
    ensures var pc := Offline.Serial(h, b).value.acc.bucketPkts;
      k in pc ==> k < BUCKETS && pc[k] > 0
  {
    var f := FormatOf(b).value;
    var rows := Outcome(Visits(f, b, Start(f.Layout()), |b|)).value;
    var bs := Offline.BucketsOf(h, Offline.Entries(Offline.LearnMap(rows), rows));
    assert Offline.Serial(h, b).value.acc.bucketPkts == Counter(bs);
  }
}
