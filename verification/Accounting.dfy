/** Theorems about the accumulating arrays: conservation, the fold of the 17-bit register
    into the 15-bit counter, digests per bucket, and the occupancy bound. */
module Accounting {
  import opened Wire
  import opened Mask
  import opened IngressParser
  import opened Runs
  import History
  import opened Switch
  import opened Sums
  import opened Bits

  /** Everything the packets of a run add to one array. */
  function Volume(bank: Bank, run: seq<Obs>): nat {
    if run == [] then 0 else Volume(bank, run[..|run| - 1]) + bank.Amount(run[|run| - 1])
  }

  lemma {:induction false} VolumeIsLength(bank: Bank, run: seq<Obs>)
    requires !bank.ByteCounter?
    ensures Volume(bank, run) == |run|
  {
    if run != [] {
      VolumeIsLength(bank, run[..|run| - 1]);
    }
  }

  /** The sizes of the packets of a run. */
  function PacketSizes(run: seq<Obs>): (s: seq<nat>)
    ensures |s| == |run|
  {
    seq(|run|, i requires 0 <= i < |run| => run[i].size)
  }

  lemma PacketSizesSnoc(run: seq<Obs>)
    requires run != []
    ensures PacketSizes(run)[..|run| - 1] == PacketSizes(run[..|run| - 1])
  {
  }

  /** The byte counter adds up the sizes of the packets. */
  lemma {:induction false} VolumeIsBytes(run: seq<Obs>)
    ensures Volume(ByteCounter, run) == Sum(PacketSizes(run))
  {
    if run != [] {
      VolumeIsBytes(run[..|run| - 1]);
      PacketSizesSnoc(run);
    }
  }

  /** The bytes of the packets whose bucket has the low `bits` bits `i`. */
  function SlotBytes(bs: seq<nat>, sizes: seq<nat>, bits: nat, i: nat): nat
    requires |bs| == |sizes|
  {
    if bs == [] then 0
    else
      var n := |bs| - 1;
      SlotBytes(bs[..n], sizes[..n], bits, i) + if LowBits(bs[n], bits) == i then sizes[n] else 0
  }

  lemma {:induction false} SlotTotals(bs: seq<nat>, run: seq<Obs>, i: nat)
    requires |bs| == |run|
    ensures Total(bs, run, Gauge(ByteCounter, i)) == SlotBytes(bs, PacketSizes(run), 15, i)
    ensures Total(bs, run, Gauge(PacketCounter, i)) == SlotPackets(bs, 15, i)
  {
    Widths();
    if run != [] {
      var n := |run| - 1;
      SlotTotals(bs[..n], run[..n], i);
      PacketSizesSnoc(run);
    }
  }

  /** What a slot of the 15-bit counter holds: the number and the bytes of the packets whose
      bucket has its index as the low 15 bits. */
  lemma SlotMeans(h: Hashes, run: seq<Obs>, i: nat)
    ensures Tally(h, run, Gauge(ByteCounter, i)) == SlotBytes(Classify(h, run), PacketSizes(run), 15, i)
    ensures Tally(h, run, Gauge(PacketCounter, i)) == SlotPackets(Classify(h, run), 15, i)
  {
    SlotTotals(Classify(h, run), run, i);
  }

  lemma TotalsGrow(h: Hashes, run: seq<Obs>, o: Obs, bank: Bank)
    ensures Sum(Totals(h, run + [o], bank)) == Sum(Totals(h, run, bank)) + bank.Amount(o)
  {
    var t, at := Totals(h, run, bank), bank.IndexOf(BucketOf(h, run, o));
    TotalsStep(h, run, o, bank);
    SumBump(t, at, bank.Amount(o));
  }

  lemma NothingYet(h: Hashes, bank: Bank)
    ensures Sum(Totals(h, [], bank)) == 0
  {
    SumZero(Totals(h, [], bank));
  }

  /** Conservation: the totals of the entries of an array add up to everything processed,
      whatever the arms and the hash functions. */
  lemma {:induction false} Conservation(h: Hashes, run: seq<Obs>, bank: Bank)
    ensures Sum(Totals(h, run, bank)) == Volume(bank, run)
  {
    if run == [] {
      NothingYet(h, bank);
    } else {
      var init, last := run[..|run| - 1], run[|run| - 1];
      Conservation(h, init, bank);
      TotalsGrow(h, init, last, bank);
      assert init + [last] == run;
    }
  }

  /** No entry of the array has wrapped. */
  ghost predicate Unwrapped(h: Hashes, run: seq<Obs>, bank: Bank) {
    forall i :: 0 <= i < bank.Size() ==> bank.Store(Totals(h, run, bank)[i]) == Totals(h, run, bank)[i]
  }

  lemma {:induction false} SumOfStored(bank: Bank, t: seq<nat>, s: seq<nat>)
    requires Stored(bank, t, s)
    ensures bank.Store(Sum(s)) == bank.Store(Sum(t))
    ensures Sum(s) <= Sum(t) && (Sum(s) == Sum(t) <==> s == t)
  {
    if s != [] {
      var n := |s| - 1;
      SumOfStored(bank, t[..n], s[..n]);
      assert s == s[..n] + [s[n]] && t == t[..n] + [t[n]];
      StoreBoth(bank, Sum(s[..n]), Sum(t[..n]), s[n], t[n]);
    }
  }

  lemma StoreBoth(bank: Bank, a: nat, b: nat, x: nat, y: nat)
    requires bank.Store(a) == bank.Store(b) && x == bank.Store(y)
    ensures bank.Store(a + x) == bank.Store(b + y) && x <= y
  {
    StoreAdd(bank, a, x);
    StoreAdd(bank, y, bank.Store(b));
    StoreAdd(bank, b, y);
  }

  /** In every reachable state an array adds up to everything processed, modulo the width of
      an entry; it does so exactly if and only if no entry has wrapped, and then it is its
      totals. Nothing can have wrapped while the volume itself fits. */
  lemma StoredExactly(h: Hashes, run: seq<Obs>, bank: Bank, s: seq<nat>)
    requires BankMatch(h, run, bank, s)
    ensures bank.Store(Sum(s)) == bank.Store(Volume(bank, run))
    ensures Sum(s) == Volume(bank, run) <==> Unwrapped(h, run, bank)
    ensures Unwrapped(h, run, bank) <==> s == Totals(h, run, bank)
    ensures bank.Store(Volume(bank, run)) == Volume(bank, run) ==> Unwrapped(h, run, bank)
  {
    var t := Totals(h, run, bank);
    Conservation(h, run, bank);
    SumOfStored(bank, t, s);
    if bank.Store(Volume(bank, run)) == Volume(bank, run) {
      forall i | 0 <= i < |t| ensures bank.Store(t[i]) == t[i] {
        EntryWithinSum(t, i);
        SmallIsStored(bank, t[i], Volume(bank, run));
      }
    }
  }

  /** The arrays of the switch add up to the packets and bytes of its history. */
  lemma SwitchSums(sw: Ingress)
    requires sw.Valid()
    ensures Low32(Sum(sw.quicPktCount[..])) == Low32(|sw.run|)
    ensures Low64(Sum(sw.flowPkts[..])) == Low64(|sw.run|)
    ensures Low64(Sum(sw.flowBytes[..])) == Low64(Sum(PacketSizes(sw.run)))
  {
    StoredExactly(sw.h, sw.run, Register, sw.quicPktCount[..]);
    StoredExactly(sw.h, sw.run, PacketCounter, sw.flowPkts[..]);
    StoredExactly(sw.h, sw.run, ByteCounter, sw.flowBytes[..]);
    VolumeIsLength(Register, sw.run);
    VolumeIsLength(PacketCounter, sw.run);
    VolumeIsBytes(sw.run);
  }

  lemma SmallIsStored(bank: Bank, a: nat, n: nat)
    requires a <= n && bank.Store(n) == n
    ensures bank.Store(a) == a
  {
  }

  /** The packets of counter slot `i` are those of the four register entries that share it. */
  lemma CounterFold(h: Hashes, run: seq<Obs>, i: nat)
    requires i < SLOTS
    ensures Tally(h, run, Gauge(PacketCounter, i))
         == Tally(h, run, Hits(i)) + Tally(h, run, Hits(i + 0x8000)) +
            Tally(h, run, Hits(i + 0x1_0000)) + Tally(h, run, Hits(i + 0x1_8000))
  {
    FoldTotal(Classify(h, run), run, i);
  }

  lemma {:induction false} FoldTotal(bs: seq<nat>, run: seq<Obs>, i: nat)
    requires |bs| == |run| && i < SLOTS && forall j :: 0 <= j < |bs| ==> bs[j] < BUCKETS
    ensures Total(bs, run, Gauge(PacketCounter, i))
         == Total(bs, run, Hits(i)) + Total(bs, run, Hits(i + 0x8000)) +
            Total(bs, run, Hits(i + 0x1_0000)) + Total(bs, run, Hits(i + 0x1_8000))
  {
    if run != [] {
      var n := |run| - 1;
      FoldTotal(bs[..n], run[..n], i);
      FoldWeight(bs[n], run[n], i);
    }
  }

  lemma FoldWeight(b: nat, o: Obs, i: nat)
    requires b < BUCKETS && i < SLOTS
    ensures Weight(Gauge(PacketCounter, i), b, o)
         == Weight(Hits(i), b, o) + Weight(Hits(i + 0x8000), b, o) +
            Weight(Hits(i + 0x1_0000), b, o) + Weight(Hits(i + 0x1_8000), b, o)
  {
  }

  /** The packets whose bucket has the low `bits` bits `i`: what slot `i` of a counter of
      that width receives. */
  function SlotPackets(bs: seq<nat>, bits: nat, i: nat): nat {
    if bs == [] then 0
    else SlotPackets(bs[..|bs| - 1], bits, i) + if LowBits(bs[|bs| - 1], bits) == i then 1 else 0
  }

  /** The buckets with the low bits `i`. */
  function Sharing(bits: nat, i: nat): (s: seq<nat>)
    requires bits <= 17
    ensures |s| == Pow2(17 - bits)
  {
    Rungs(i, Pow2(bits), Pow2(17 - bits))
  }

  lemma SharingDistinct(bits: nat, i: nat)
    requires bits <= 17
    ensures Distinct(Sharing(bits, i))
  {
    var s := Sharing(bits, i);
    forall j, k | 0 <= j < k < |s| ensures s[j] != s[k] {
      RungsClimb(i, Pow2(bits), j, k);
    }
  }

  /** These are exactly the buckets that share slot `i`. */
  lemma SharingHas(bits: nat, i: nat, b: nat)
    requires bits <= 17 && i < Pow2(bits) && b < BUCKETS
    ensures b in Sharing(bits, i) <==> LowBits(b, bits) == i
  {
    Widths();
    Pow2Splits(bits, 17 - bits);
    RungsHave(i, Pow2(bits), Pow2(17 - bits), b);
  }

  /** How often each of `entries` occurs among `bs`. */
  function Occurrences(bs: seq<nat>, entries: seq<nat>): (s: seq<nat>)
    ensures |s| == |entries|
  {
    seq(|entries|, j requires 0 <= j < |entries| => multiset(bs)[entries[j]])
  }

  lemma OccurrencesSnoc(bs: seq<nat>, b: nat, entries: seq<nat>)
    requires Distinct(entries)
    ensures Sum(Occurrences(bs + [b], entries)) == Sum(Occurrences(bs, entries)) + if b in entries then 1 else 0
  {
    var s, s' := Occurrences(bs, entries), Occurrences(bs + [b], entries);
    if b in entries {
      var at :| 0 <= at < |entries| && entries[at] == b;
      SumBump(s, at, 1);
      assert s' == s[at := s[at] + 1];
    } else {
      assert s' == s;
    }
  }

  lemma {:induction false} SharingTotal(bs: seq<nat>, bits: nat, i: nat, entries: seq<nat>)
    requires Distinct(entries) && forall j :: 0 <= j < |bs| ==> (bs[j] in entries <==> LowBits(bs[j], bits) == i)
    ensures SlotPackets(bs, bits, i) == Sum(Occurrences(bs, entries))
  {
    if bs == [] {
      SumZero(Occurrences(bs, entries));
    } else {
      var n := |bs| - 1;
      SharingTotal(bs[..n], bits, i, entries);
      OccurrencesSnoc(bs[..n], bs[n], entries);
      assert bs == bs[..n] + [bs[n]];
    }
  }

  /** The totals of some register entries. */
  ghost function EntryTotals(h: Hashes, run: seq<Obs>, entries: seq<nat>): (s: seq<nat>)
    ensures |s| == |entries|
  {
    seq(|entries|, j requires 0 <= j < |entries| => Tally(h, run, Hits(entries[j])))
  }

  lemma TotalsAreOccurrences(h: Hashes, run: seq<Obs>, entries: seq<nat>)
    ensures EntryTotals(h, run, entries) == Occurrences(Classify(h, run), entries)
  {
    forall j | 0 <= j < |entries| ensures EntryTotals(h, run, entries)[j] == Occurrences(Classify(h, run), entries)[j] {
      HitsAreOccurrences(h, run, entries[j]);
    }
  }

  /** For every counter width up to 17 bits: the packets of a slot are those of the register
      entries whose buckets have its index as their low bits. */
  lemma FoldAnyWidth(h: Hashes, run: seq<Obs>, bits: nat, i: nat)
    requires bits <= 17 && i < Pow2(bits)
    ensures SlotPackets(Classify(h, run), bits, i) == Sum(EntryTotals(h, run, Sharing(bits, i)))
  {
    var bs, entries := Classify(h, run), Sharing(bits, i);
    SharingDistinct(bits, i);
    forall j | 0 <= j < |bs| ensures bs[j] in entries <==> LowBits(bs[j], bits) == i {
      SharingHas(bits, i, bs[j]);
    }
    SharingTotal(bs, bits, i, entries);
    TotalsAreOccurrences(h, run, entries);
  }

  /** In every reachable state of the switch, counter slot and register agree modulo 2^32. */
  lemma CounterMatchesRegister(sw: Ingress, i: nat)
    requires sw.Valid() && i < SLOTS
    ensures var c := sw.quicPktCount;
      Low32(sw.flowPkts[i]) == Low32(c[i] + c[i + 0x8000] + c[i + 0x1_0000] + c[i + 0x1_8000])
  {
    var a, b, c, d := Tally(sw.h, sw.run, Hits(i)), Tally(sw.h, sw.run, Hits(i + 0x8000)),
                      Tally(sw.h, sw.run, Hits(i + 0x1_0000)), Tally(sw.h, sw.run, Hits(i + 0x1_8000));
    CounterFold(sw.h, sw.run, i);
    var s, t := sw.quicPktCount[..], Totals(sw.h, sw.run, Register);
    assert s[i] == Low32(t[i]) && s[i + 0x8000] == Low32(t[i + 0x8000]);
    assert s[i + 0x1_0000] == Low32(t[i + 0x1_0000]) && s[i + 0x1_8000] == Low32(t[i + 0x1_8000]);
    assert sw.flowPkts[..][i] == Low64(Totals(sw.h, sw.run, PacketCounter)[i]);
    FoldMod(a, b, c, d);
  }

  lemma FoldMod(a: nat, b: nat, c: nat, d: nat)
    ensures Low32(Low64(a + b + c + d)) == Low32(Low32(a) + Low32(b) + Low32(c) + Low32(d))
  {
    NarrowWide(a + b + c + d);
    Low32Add(a, b + c + d);
    Low32Add(b, Low32(a) + c + d);
    Low32Add(c, Low32(a) + Low32(b) + d);
    Low32Add(d, Low32(a) + Low32(b) + Low32(c));
  }

  lemma NarrowWide(n: nat)
    ensures Low32(Low64(n)) == Low32(n)
  {
  }

  // ---- digests ----

  /** A bucket that received n packets raised exactly ceil(n / 2^32) digests. */
  lemma DigestCount(h: Hashes, run: seq<Obs>, b: nat)
    ensures Digests(h, run, b) == (Tally(h, run, Hits(b)) + 0xFFFF_FFFF) / 0x1_0000_0000
  {
    HitsAreOccurrences(h, run, b);
    DigestsAreCeil(Classify(h, run), b);
  }

  lemma {:induction false} DigestsAreCeil(bs: seq<nat>, b: nat)
    ensures DigestsIn(bs, b) == (multiset(bs)[b] + 0xFFFF_FFFF) / 0x1_0000_0000
  {
    if bs != [] {
      var n := |bs| - 1;
      DigestsAreCeil(bs[..n], b);
      assert bs == bs[..n] + [bs[n]];
      CeilStep(multiset(bs[..n])[b]);
    }
  }

  lemma CeilStep(n: nat)
    ensures (n + 1 + 0xFFFF_FFFF) / 0x1_0000_0000
         == (n + 0xFFFF_FFFF) / 0x1_0000_0000 + if Low32(n + 1) == 1 then 1 else 0
  {
  }

  /** The count of digests grows exactly with the digests that the switch raises. */
  lemma DigestStep(h: Hashes, run: seq<Obs>, o: Obs, b: nat)
    ensures Digests(h, run + [o], b)
         == Digests(h, run, b) + if BucketOf(h, run, o) == b && RaisesDigest(h, run, o) then 1 else 0
  {
    var bs := Classify(h, run);
    ClassifySnoc(h, run, o);
    HitsAreOccurrences(h, run, b);
    assert (bs + [BucketOf(h, run, o)])[..|bs|] == bs;
  }

  /** In every reachable state: an entry is nonzero exactly when its bucket's packets are
      not a multiple of 2^32, and a bucket raised exactly one digest when it received between
      1 and 2^32 packets. Below 2^32, nonzero means traffic. */
  lemma OneDigestPerBucket(sw: Ingress, b: nat)
    requires sw.Valid() && b < BUCKETS
    ensures var n := Tally(sw.h, sw.run, Hits(b));
      && (sw.quicPktCount[b] != 0 <==> n % 0x1_0000_0000 != 0)
      && (Digests(sw.h, sw.run, b) == 1 <==> 0 < n <= 0x1_0000_0000)
      && (n < 0x1_0000_0000 ==>
            sw.quicPktCount[b] == n && Digests(sw.h, sw.run, b) == if sw.quicPktCount[b] != 0 then 1 else 0)
  {
    assert sw.quicPktCount[..][b] == Low32(Totals(sw.h, sw.run, Register)[b]);
    DigestCount(sw.h, sw.run, b);
    CeilOne(Tally(sw.h, sw.run, Hits(b)));
  }

  lemma CeilOne(n: nat)
    ensures (n + 0xFFFF_FFFF) / 0x1_0000_0000 == 1 <==> 0 < n <= 0x1_0000_0000
    ensures n == 0 ==> (n + 0xFFFF_FFFF) / 0x1_0000_0000 == 0
    ensures n < 0x1_0000_0000 ==> Low32(n) == n
  {
  }

  /** A bucket receives no more packets than the run has. */
  lemma BucketWithinRun(h: Hashes, run: seq<Obs>, b: nat)
    requires b < BUCKETS
    ensures Tally(h, run, Hits(b)) <= |run|
  {
    Conservation(h, run, Register);
    VolumeIsLength(Register, run);
    EntryWithinSum(Totals(h, run, Register), b);
  }

  lemma {:induction false} Repeated(h: Hashes, o: Obs, n: nat)
    requires o.quic.Long?
    ensures Tally(h, seq(n, _ => o), Hits(BucketOf(h, [], o))) == n
  {
    if n > 0 {
      Repeated(h, o, n - 1);
      assert seq(n, _ => o) == seq(n - 1, _ => o) + [o];
      Append(h, seq(n - 1, _ => o), o, Hits(BucketOf(h, [], o)));
    }
  }

  /** Nonzero does not mean traffic in general: after 2^32 copies of one Long packet the
      entry of its bucket reads zero. */
  lemma WrapsToZero(sw: Ingress, o: Obs)
    requires sw.Valid() && o.quic.Long? && sw.run == seq(0x1_0000_0000, _ => o)
    ensures var b := BucketOf(sw.h, [], o);
      sw.quicPktCount[b] == 0 && Tally(sw.h, sw.run, Hits(b)) == 0x1_0000_0000
  {
    Repeated(sw.h, o, 0x1_0000_0000);
    OneDigestPerBucket(sw, BucketOf(sw.h, [], o));
  }

  // ---- occupancy ----

  /** The distinct hash inputs of a run. */
  ghost function HashInputs(h: Hashes, run: seq<Obs>): set<Bytes> {
    set i | 0 <= i < |run| :: Pad20(Cid(h, run[..i], run[i]))
  }

  ghost function Occupied(h: Hashes, run: seq<Obs>): set<nat> {
    set b: nat | b < BUCKETS && Tally(h, run, Hits(b)) > 0
  }

  lemma OccupiedIsHashed(h: Hashes, run: seq<Obs>, b: nat)
    requires Tally(h, run, Hits(b)) > 0
    ensures exists x :: x in HashInputs(h, run) && HashBucket(h, x) == b
  {
    HitsAreOccurrences(h, run, b);
    var bs := Classify(h, run);
    assert b in bs;
    var i :| 0 <= i < |bs| && bs[i] == b;
    assert Pad20(Cid(h, run[..i], run[i])) in HashInputs(h, run);
  }

  lemma {:induction false} ImageBound(h: Hashes, xs: set<Bytes>, bs: set<nat>)
    requires forall b :: b in bs ==> exists x :: x in xs && HashBucket(h, x) == b
    ensures |bs| <= |xs|
    decreases |xs|
  {
    if bs != {} {
      var b :| b in bs;
      var x :| x in xs && HashBucket(h, x) == b;
      forall c | c in bs - {b} ensures exists y :: y in xs - {x} && HashBucket(h, y) == c {
        var y :| y in xs && HashBucket(h, y) == c;
        assert y in xs - {x};
      }
      ImageBound(h, xs - {x}, bs - {b});
    }
  }

  /** The occupied entries never exceed the distinct masked connection IDs, however many
      packets there were and whatever their speculative tails held. */
  lemma OccupancyBound(h: Hashes, run: seq<Obs>)
    ensures |Occupied(h, run)| <= |HashInputs(h, run)|
  {
    forall b | b in Occupied(h, run) ensures exists x :: x in HashInputs(h, run) && HashBucket(h, x) == b {
      OccupiedIsHashed(h, run, b);
    }
    ImageBound(h, HashInputs(h, run), Occupied(h, run));
  }

  /** Same kind of header and same length on the wire. */
  predicate SameForm(p: Quic, q: Quic) {
    match (p, q)
    case (Long(l), Long(m)) => l.packetType == m.packetType && l.dcidLen == m.dcidLen
    case (Short(_), Short(_)) => true
    case _ => false
  }

  /** `y` differs from `x` at most in what lies beyond the effective length of the DCID. */
  predicate TailPair(h: Hashes, run: seq<Obs>, x: Obs, y: Obs) {
    && x.tuple == y.tuple && x.force == y.force && x.size == y.size && SameForm(x.quic, y.quic)
    && Cid(h, run, x) == Take(y.quic.Dcid(), Kept(EffLen(h, run, x)))
  }

  ghost predicate SameUpToTails(h: Hashes, r: seq<Obs>, s: seq<Obs>) {
    |r| == |s| && forall i :: 0 <= i < |r| ==> TailPair(h, r[..i], r[i], s[i])
  }

  lemma SameUpToTailsPrefix(h: Hashes, r: seq<Obs>, s: seq<Obs>, n: nat)
    requires SameUpToTails(h, r, s) && n <= |r|
    ensures SameUpToTails(h, r[..n], s[..n])
  {
    forall i | 0 <= i < n ensures TailPair(h, r[..n][..i], r[..n][i], s[..n][i]) {
      assert r[..n][..i] == r[..i];
      assert TailPair(h, r[..i], r[i], s[i]);
    }
  }

  lemma {:induction false} TailsTeachNothing(h: Hashes, r: seq<Obs>, s: seq<Obs>, k: nat)
    requires SameUpToTails(h, r, s)
    ensures Learned(h, r, k) == Learned(h, s, k)
  {
    if r != [] {
      var n := |r| - 1;
      SameUpToTailsPrefix(h, r, s, n);
      TailsTeachNothing(h, r[..n], s[..n], k);
      assert TailPair(h, r[..n], r[n], s[n]);
    }
  }

  lemma {:induction false} TotalBySizes(bs: seq<nat>, r: seq<Obs>, s: seq<Obs>, g: Gauge)
    requires |bs| == |r| == |s| && forall i :: 0 <= i < |r| ==> r[i].size == s[i].size
    ensures Total(bs, r, g) == Total(bs, s, g)
  {
    if r != [] {
      var n := |r| - 1;
      TotalBySizes(bs[..n], r[..n], s[..n], g);
    }
  }

  lemma SameTailBuckets(h: Hashes, r: seq<Obs>, s: seq<Obs>, i: nat)
    requires SameUpToTails(h, r, s) && i < |r|
    ensures BucketOf(h, r[..i], r[i]) == BucketOf(h, s[..i], s[i])
  {
    SameUpToTailsPrefix(h, r, s, i);
    TailsTeachNothing(h, r[..i], s[..i], Key(h, r[i]));
    assert TailPair(h, r[..i], r[i], s[i]);
  }

  /** The speculative tail bytes have no influence on any array. */
  lemma TailsIrrelevant(h: Hashes, r: seq<Obs>, s: seq<Obs>, g: Gauge)
    requires SameUpToTails(h, r, s)
    ensures Tally(h, r, g) == Tally(h, s, g)
  {
    var bs := Classify(h, r);
    forall i | 0 <= i < |r| ensures bs[i] == Classify(h, s)[i] && r[i].size == s[i].size {
      SameTailBuckets(h, r, s, i);
      assert TailPair(h, r[..i], r[i], s[i]);
    }
    assert bs == Classify(h, s);
    TotalBySizes(bs, r, s, g);
  }

  /** On the switch itself: the nonzero register entries never exceed the distinct masked
      connection IDs. */
  lemma RegisterOccupancy(sw: Ingress)
    requires sw.Valid()
    ensures |set b | 0 <= b < BUCKETS && sw.quicPktCount[b] != 0| <= |HashInputs(sw.h, sw.run)|
  {
    var nonzero := set b | 0 <= b < BUCKETS && sw.quicPktCount[b] != 0;
    forall b | b in nonzero ensures exists x :: x in HashInputs(sw.h, sw.run) && HashBucket(sw.h, x) == b {
      assert sw.quicPktCount[..][b] == Low32(Totals(sw.h, sw.run, Register)[b]);
      OccupiedIsHashed(sw.h, sw.run, b);
    }
    ImageBound(sw.h, HashInputs(sw.h, sw.run), nonzero);
  }

  // ---- order and arms, on the arrays ----

  lemma SameTallies(h: Hashes, r: seq<Obs>, s: seq<Obs>, bank: Bank, x: seq<nat>, y: seq<nat>)
    requires BankMatch(h, r, bank, x) && BankMatch(h, s, bank, y)
    requires forall g :: Tally(h, r, g) == Tally(h, s, g)
    ensures x == y
  {
    var t, u := Totals(h, r, bank), Totals(h, s, bank);
    forall i | 0 <= i < |t| ensures t[i] == u[i] {
      assert Tally(h, r, Gauge(bank, i)) == Tally(h, s, Gauge(bank, i));
    }
    assert t == u;
    assert forall i :: 0 <= i < |x| ==> x[i] == y[i];
  }

  /** Two switches that saw the same packets in different orders, both settled, end with the
      same contents in all four arrays. */
  lemma OrderDoesNotMatter(sw: Ingress, tw: Ingress)
    requires sw.Valid() && tw.Valid() && sw.h == tw.h && multiset(sw.run) == multiset(tw.run)
    requires History.Stable(sw.h, sw.run) && History.Ordered(sw.h, sw.run) && History.Ordered(sw.h, tw.run)
    ensures sw.quicPktCount[..] == tw.quicPktCount[..] && sw.dcidLenReg[..] == tw.dcidLenReg[..]
    ensures sw.flowPkts[..] == tw.flowPkts[..] && sw.flowBytes[..] == tw.flowBytes[..]
  {
    History.TimingFree(sw.h, sw.run, tw.run);
    SameTallies(sw.h, sw.run, tw.run, Register, sw.quicPktCount[..], tw.quicPktCount[..]);
    SameTallies(sw.h, sw.run, tw.run, PacketCounter, sw.flowPkts[..], tw.flowPkts[..]);
    SameTallies(sw.h, sw.run, tw.run, ByteCounter, sw.flowBytes[..], tw.flowBytes[..]);
    assert forall k :: 0 <= k < KEYS ==> sw.dcidLenReg[..][k] == tw.dcidLenReg[..][k];
  }

  lemma {:induction false} SameVolume(bank: Bank, r: seq<Obs>, s: seq<Obs>)
    requires History.SamePackets(r, s)
    ensures Volume(bank, r) == Volume(bank, s)
  {
    if r != [] {
      var n := |r| - 1;
      SameVolume(bank, r[..n], s[..n]);
      assert r[n].(force := 0) == s[n].(force := 0);
    }
  }

  /** Whatever the schedule of arms, the same packets leave the same length register and the
      same number of counted packets and bytes. */
  lemma ArmsCountAlike(sw: Ingress, tw: Ingress, bank: Bank)
    requires sw.Valid() && tw.Valid() && sw.h == tw.h && History.SamePackets(sw.run, tw.run)
    ensures sw.dcidLenReg[..] == tw.dcidLenReg[..]
    ensures Sum(Totals(sw.h, sw.run, bank)) == Sum(Totals(tw.h, tw.run, bank))
  {
    forall k | 0 <= k < KEYS ensures sw.dcidLenReg[..][k] == tw.dcidLenReg[..][k] {
      History.ArmLeavesNoTrace(sw.h, sw.run, tw.run, k);
    }
    Conservation(sw.h, sw.run, bank);
    Conservation(tw.h, tw.run, bank);
    SameVolume(bank, sw.run, tw.run);
  }
}
