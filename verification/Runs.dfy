/** What the classifier means: the effective length, connection ID and bucket of every
    packet of a run, stated on the packet history alone, without registers. */
module Runs {
  import opened Wire
  import opened Mask
  import opened IngressParser

  /** One QUIC packet as the ingress control saw it, with the arm in force at the time. */
  datatype Obs = Obs(tuple: FourTuple, quic: Quic, force: nat, size: nat)

  const SLOTS: nat := 0x8000

  /** A register entry is 32 bits wide. */
  function Low32(n: nat): (r: nat)
    ensures r < 0x1_0000_0000
  {
    n % 0x1_0000_0000
  }

  /** A counter is 64 bits wide. */
  function Low64(n: nat): (r: nat)
    ensures r < 0x1_0000_0000_0000_0000
  {
    n % 0x1_0000_0000_0000_0000
  }

  /** Reducing before or after an addition makes no difference. */
  lemma Low32Add(a: nat, b: nat)
    ensures Low32(Low32(a) + b) == Low32(a + b)
  {
  }

  lemma Low64Add(a: nat, b: nat)
    ensures Low64(Low64(a) + b) == Low64(a + b)
  {
  }

  /** Entries of the register wrap at 2^32, entries of the counters at 2^64. */
  lemma StoreWraps(bank: Bank, n: nat)
    ensures bank == Register ==>
      (bank.Store(n) == n <==> n < 0x1_0000_0000) && bank.Store(n + 0x1_0000_0000) == bank.Store(n)
    ensures bank != Register ==>
      && (bank.Store(n) == n <==> n < 0x1_0000_0000_0000_0000)
      && bank.Store(n + 0x1_0000_0000_0000_0000) == bank.Store(n)
  {
  }

  function Key(h: Hashes, o: Obs): (k: nat)
    ensures k < KEYS
  {
    FlowKey(h, o.tuple)
  }

  predicate Teaches(h: Hashes, o: Obs, k: nat) {
    IsHandshake(o.quic) && Key(h, o) == k
  }

  /** The DCID length of the latest Handshake of the run with flow key `k`, or 0. */
  function Learned(h: Hashes, run: seq<Obs>, k: nat): nat
    decreases |run|
  {
    if run == [] then 0
    else
      var last := run[|run| - 1];
      if Teaches(h, last, k) then last.quic.long.dcidLen else Learned(h, run[..|run| - 1], k)
  }

  /** The length under which packet `o` is classified after `run`. */
  function EffLen(h: Hashes, run: seq<Obs>, o: Obs): nat {
    if o.force != 0 then o.force
    else match o.quic
      case Long(l) => l.dcidLen
      case Short(_) => Learned(h, run, Key(h, o))
  }

  /** The bytes of the DCID that survive the mask. */
  function Cid(h: Hashes, run: seq<Obs>, o: Obs): Bytes {
    Take(o.quic.Dcid(), Kept(EffLen(h, run, o)))
  }

  function BucketOf(h: Hashes, run: seq<Obs>, o: Obs): (b: nat)
    ensures b < BUCKETS
  {
    CidBucket(h, Cid(h, run, o))
  }

  /** The arrays that accumulate: the packet register, and the packet and byte halves
      of the counter. */
  datatype Bank = Register | PacketCounter | ByteCounter {
    function Size(): nat {
      if this.Register? then BUCKETS else SLOTS
    }

    /** What an entry of this array keeps of a number. */
    function Store(n: nat): nat {
      if this.Register? then Low32(n) else Low64(n)
    }

    function IndexOf(bucket: nat): nat {
      if this.Register? then bucket else bucket % 0x8000
    }

    function Amount(o: Obs): nat {
      if this.ByteCounter? then o.size else 1
    }
  }

  /** One entry of one array. */
  datatype Gauge = Gauge(bank: Bank, index: nat)

  function Hits(bucket: nat): Gauge {
    Gauge(Register, bucket)
  }

  function Weight(g: Gauge, bucket: nat, o: Obs): nat {
    if g.bank.IndexOf(bucket) == g.index then g.bank.Amount(o) else 0
  }

  /** The bucket of every packet of a run. */
  function Classify(h: Hashes, run: seq<Obs>): (s: seq<nat>)
    ensures |s| == |run|
  {
    seq(|run|, i requires 0 <= i < |run| => BucketOf(h, run[..i], run[i]))
  }

  /** What a gauge receives from packets that were put into the given buckets. */
  function Total(bs: seq<nat>, run: seq<Obs>, g: Gauge): nat
    requires |bs| == |run|
  {
    if run == [] then 0
    else
      var n := |run| - 1;
      Total(bs[..n], run[..n], g) + Weight(g, bs[n], run[n])
  }

  /** The total a gauge has received over a run, as an unbounded number. */
  function Tally(h: Hashes, run: seq<Obs>, g: Gauge): nat {
    Total(Classify(h, run), run, g)
  }

  /** The packet that takes the 32-bit entry of its bucket to 1 raises a digest. */
  predicate RaisesDigest(h: Hashes, run: seq<Obs>, o: Obs) {
    Low32(Tally(h, run, Hits(BucketOf(h, run, o))) + 1) == 1
  }

  /** How often bucket `b` raises a digest when packets are put into the given buckets. */
  function DigestsIn(bs: seq<nat>, b: nat): nat {
    if bs == [] then 0
    else
      var init, last := bs[..|bs| - 1], bs[|bs| - 1];
      DigestsIn(init, b) + if last == b && Low32(multiset(init)[b] + 1) == 1 then 1 else 0
  }

  function Digests(h: Hashes, run: seq<Obs>, b: nat): nat {
    DigestsIn(Classify(h, run), b)
  }

  lemma ClassifySnoc(h: Hashes, run: seq<Obs>, o: Obs)
    ensures Classify(h, run + [o]) == Classify(h, run) + [BucketOf(h, run, o)]
  {
    var s := run + [o];
    assert s[..|run|] == run;
    forall i | 0 <= i < |run| ensures Classify(h, s)[i] == Classify(h, run)[i] {
      assert s[..i] == run[..i] && s[i] == run[i];
    }
  }

  lemma TotalSnoc(bs: seq<nat>, run: seq<Obs>, b: nat, o: Obs, g: Gauge)
    requires |bs| == |run|
    ensures Total(bs + [b], run + [o], g) == Total(bs, run, g) + Weight(g, b, o)
  {
    assert (bs + [b])[..|bs|] == bs && (run + [o])[..|run|] == run;
  }

  /** One more packet adds its weight in its own bucket, and nothing else changes. */
  lemma Append(h: Hashes, run: seq<Obs>, o: Obs, g: Gauge)
    ensures Tally(h, run + [o], g) == Tally(h, run, g) + Weight(g, BucketOf(h, run, o), o)
  {
    ClassifySnoc(h, run, o);
    TotalSnoc(Classify(h, run), run, BucketOf(h, run, o), o, g);
  }

  lemma {:induction false} TotalIsOccurrences(bs: seq<nat>, run: seq<Obs>, b: nat)
    requires |bs| == |run|
    ensures Total(bs, run, Hits(b)) == multiset(bs)[b]
  {
    if run != [] {
      var n := |run| - 1;
      TotalIsOccurrences(bs[..n], run[..n], b);
      assert bs == bs[..n] + [bs[n]];
    }
  }

  /** A register total is the number of packets classified into the bucket. */
  lemma HitsAreOccurrences(h: Hashes, run: seq<Obs>, b: nat)
    ensures Tally(h, run, Hits(b)) == multiset(Classify(h, run))[b]
  {
    TotalIsOccurrences(Classify(h, run), run, b);
  }
}
