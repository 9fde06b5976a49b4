/** The offline replica: a learn phase and a bucket phase, each sharded over byte ranges of
    the capture and merged, proved equal to one serial walk for every job count. */
module Offline {
  import opened Wire
  import opened Capture
  import opened Tables
  import opened Hex

  datatype Kind = Initial | ZeroRtt | Handshake | Retry | Short | ShortUnlearned

  /** A classified datagram. */
  datatype Entry = Entry(dcid: Bytes, kind: Kind)

  /** The slice `b[i:i+n]`. */
  function Slice(b: Bytes, i: nat, n: nat): Bytes {
    if i > |b| then [] else Take(b[i..], n)
  }

  predicate TeachesLength(r: Row) {
    |r.payload| >= 6 && r.payload[0] & 0xB0 == 0xA0
  }

  type Lengths = map<FourTuple, nat>

  /** The learned length of every 4-tuple: that of its last Handshake. */
  function LearnMap(rows: seq<Row>): Lengths {
    if rows == [] then map[]
    else
      var init, last := LearnMap(rows[..|rows| - 1]), rows[|rows| - 1];
      if TeachesLength(last) then init[last.tuple := last.payload[5] as int] else init
  }

  /** Row `j` is the last Handshake of 4-tuple `t`. */
  predicate IsLastLesson(rows: seq<Row>, t: FourTuple, j: int) {
    && 0 <= j < |rows| && TeachesLength(rows[j]) && rows[j].tuple == t
    && forall i :: j < i < |rows| ==> !(TeachesLength(rows[i]) && rows[i].tuple == t)
  }

  /** A 4-tuple is in the map exactly when it has a Handshake, and then with the length that
      its last one carries. */
  lemma {:induction false} LearnedIsLast(rows: seq<Row>, t: FourTuple)
    ensures t in LearnMap(rows) <==> exists i :: 0 <= i < |rows| && TeachesLength(rows[i]) && rows[i].tuple == t
    ensures t in LearnMap(rows) ==>
      exists j :: IsLastLesson(rows, t, j) && LearnMap(rows)[t] == rows[j].payload[5] as int
  {
    if rows != [] {
      var n := |rows| - 1;
      var init := rows[..n];
      LearnedIsLast(init, t);
      if TeachesLength(rows[n]) && rows[n].tuple == t {
        assert IsLastLesson(rows, t, n);
      } else {
        if t in LearnMap(init) {
          var j :| IsLastLesson(init, t, j) && LearnMap(init)[t] == init[j].payload[5] as int;
          assert IsLastLesson(rows, t, j);
        }
        if i :| 0 <= i < |rows| && TeachesLength(rows[i]) && rows[i].tuple == t {
          assert init[i] == rows[i];
        }
      }
    }
  }

  function LongKind(first: bv8): Kind {
    match (first & 0x30) >> 4
    case 0 => Initial
    case 1 => ZeroRtt
    case 2 => Handshake
    case _ => Retry
  }

  /** How one row is classified under a complete length map; None if it is too short. */
  function EntryOf(learned: Lengths, r: Row): Option<Entry> {
    var pl := r.payload;
    if |pl| < 2 then None
    else if pl[0] & 0x80 != 0 then
      if |pl| < 6 then None else Some(Entry(Slice(pl, 6, pl[5] as int), LongKind(pl[0])))
    else
      var n := Get(learned, r.tuple);
      Some(Entry(Slice(pl, 1, n), if n != 0 then Short else ShortUnlearned))
  }

  /** The two-bit packet type of a kind of Long header. */
  function TypeBits(k: Kind): bv8
    requires k != Short && k != ShortUnlearned
  {
    match k
    case Initial => 0
    case ZeroRtt => 1
    case Handshake => 2
    case Retry => 3
  }

  /** What a row is classified as: nothing if it is too short; otherwise the payload bytes from
      offset 6 or 1, as many as the length says and the payload holds, under the kind of the
      header. */
  lemma EntryMeans(learned: Lengths, r: Row)
    ensures var e, pl := EntryOf(learned, r), r.payload;
      && (e.None? <==> |pl| < 2 || (pl[0] >= 0x80 && |pl| < 6))
      && (e.Some? && pl[0] >= 0x80 ==>
            && e.value.dcid == Take(pl[6..], pl[5] as int)
            && e.value.kind != Short && e.value.kind != ShortUnlearned
            && (pl[0] >> 4) & 3 == TypeBits(e.value.kind))
      && (e.Some? && pl[0] < 0x80 ==>
            && e.value.dcid == Take(pl[1..], Get(learned, r.tuple))
            && e.value.kind == if Get(learned, r.tuple) == 0 then ShortUnlearned else Short)
  {
    if |r.payload| >= 1 {
      TopBit(r.payload[0]);
    }
  }

  lemma TopBit(b: bv8)
    ensures b & 0x80 != 0 <==> b >= 0x80
    ensures (b & 0x30) >> 4 == (b >> 4) & 3 && (b >> 4) & 3 <= 3
  {
  }

  /** A row teaches a length exactly when it is classified as a Handshake, and then the length
      under which it is classified itself. */
  lemma HandshakeTeaches(learned: Lengths, r: Row)
    ensures TeachesLength(r) <==> EntryOf(learned, r).Some? && EntryOf(learned, r).value.kind == Handshake
    ensures TeachesLength(r) ==> EntryOf(learned, r).value.dcid == Take(r.payload[6..], LearnMap([r])[r.tuple])
  {
    if |r.payload| >= 1 {
      TeachingByte(r.payload[0]);
      TopBit(r.payload[0]);
    }
    assert [r][..0] == [];
  }

  lemma TeachingByte(b: bv8)
    ensures b & 0xB0 == 0xA0 <==> b & 0x80 != 0 && (b & 0x30) >> 4 == 2
  {
  }

  function Entries(learned: Lengths, rows: seq<Row>): seq<Entry> {
    if rows == [] then []
    else
      var e := EntryOf(learned, rows[|rows| - 1]);
      Entries(learned, rows[..|rows| - 1]) + if e.Some? then [e.value] else []
  }

  function Skipped(learned: Lengths, rows: seq<Row>): nat {
    if rows == [] then 0
    else Skipped(learned, rows[..|rows| - 1]) + if EntryOf(learned, rows[|rows| - 1]).None? then 1 else 0
  }

  // ---- accumulators ----

  /** bucket -> packets, bucket -> CIDs, CID -> buckets, CID -> packets, kind -> packets. */
  datatype Acc = Acc(bucketPkts: map<nat, nat>, bucketCids: map<nat, set<string>>,
                     cidBuckets: map<string, set<nat>>, cidPkts: map<string, nat>, kindPkts: map<Kind, nat>)

  const NEW_ACC := Acc(map[], map[], map[], map[], map[])

  function BucketsOf(h: Hashes, es: seq<Entry>): (s: seq<nat>)
    ensures |s| == |es|
  {
    seq(|es|, i requires 0 <= i < |es| => CidBucket(h, es[i].dcid))
  }

  function CidsOf(es: seq<Entry>): (s: seq<string>)
    ensures |s| == |es|
  {
    seq(|es|, i requires 0 <= i < |es| => HexOf(es[i].dcid))
  }

  function KindsOf(es: seq<Entry>): (s: seq<Kind>)
    ensures |s| == |es|
  {
    seq(|es|, i requires 0 <= i < |es| => es[i].kind)
  }

  function Zip<A, B>(a: seq<A>, b: seq<B>): (s: seq<(A, B)>)
    requires |a| == |b|
    ensures |s| == |a|
  {
    seq(|a|, i requires 0 <= i < |a| => (a[i], b[i]))
  }

  /** What the five tables mean for a sequence of classified datagrams. */
  function Summary(h: Hashes, es: seq<Entry>): Acc {
    var bs, cs := BucketsOf(h, es), CidsOf(es);
    Acc(Counter(bs), Relation(Zip(bs, cs)), Relation(Zip(cs, bs)), Counter(cs), Counter(KindsOf(es)))
  }

  lemma ColumnsConcat(h: Hashes, es: seq<Entry>, fs: seq<Entry>)
    ensures BucketsOf(h, es + fs) == BucketsOf(h, es) + BucketsOf(h, fs)
    ensures CidsOf(es + fs) == CidsOf(es) + CidsOf(fs)
    ensures KindsOf(es + fs) == KindsOf(es) + KindsOf(fs)
  {
  }

  lemma ZipConcat<A, B>(a: seq<A>, b: seq<B>, c: seq<A>, d: seq<B>)
    requires |a| == |b| && |c| == |d|
    ensures Zip(a + c, b + d) == Zip(a, b) + Zip(c, d)
  {
  }

  function FoldOne(h: Hashes, acc: Acc, e: Entry): Acc {
    var b, c := CidBucket(h, e.dcid), HexOf(e.dcid);
    Acc(Bump(acc.bucketPkts, b), Insert(acc.bucketCids, b, c), Insert(acc.cidBuckets, c, b),
        Bump(acc.cidPkts, c), Bump(acc.kindPkts, e.kind))
  }

  function MergeAcc(x: Acc, y: Acc): Acc {
    Acc(AddCounts(x.bucketPkts, y.bucketPkts), UnionSets(x.bucketCids, y.bucketCids),
        UnionSets(x.cidBuckets, y.cidBuckets), AddCounts(x.cidPkts, y.cidPkts), AddCounts(x.kindPkts, y.kindPkts))
  }

  /** Bucketing one more DCID updates the summary by one more datagram. */
  lemma SummarySnoc(h: Hashes, es: seq<Entry>, e: Entry)
    ensures FoldOne(h, Summary(h, es), e) == Summary(h, es + [e])
  {
    var b, c := CidBucket(h, e.dcid), HexOf(e.dcid);
    var bs, cs := BucketsOf(h, es), CidsOf(es);
    ColumnsConcat(h, es, [e]);
    assert BucketsOf(h, [e]) == [b] && CidsOf([e]) == [c] && KindsOf([e]) == [e.kind];
    ZipConcat(bs, cs, [b], [c]);
    ZipConcat(cs, bs, [c], [b]);
    assert Zip([b], [c]) == [(b, c)] && Zip([c], [b]) == [(c, b)];
    CounterSnoc(bs, b);
    CounterSnoc(cs, c);
    CounterSnoc(KindsOf(es), e.kind);
    RelationSnoc(Zip(bs, cs), (b, c));
    RelationSnoc(Zip(cs, bs), (c, b));
  }

  /** Merging the tables of two shards gives the tables of their concatenation. */
  lemma SummaryConcat(h: Hashes, es: seq<Entry>, fs: seq<Entry>)
    ensures MergeAcc(Summary(h, es), Summary(h, fs)) == Summary(h, es + fs)
  {
    var bs, cs, bs', cs' := BucketsOf(h, es), CidsOf(es), BucketsOf(h, fs), CidsOf(fs);
    ColumnsConcat(h, es, fs);
    ZipConcat(bs, cs, bs', cs');
    ZipConcat(cs, bs, cs', bs');
    CounterConcat(bs, bs');
    CounterConcat(cs, cs');
    CounterConcat(KindsOf(es), KindsOf(fs));
    RelationConcat(Zip(bs, cs), Zip(bs', cs'));
    RelationConcat(Zip(cs, bs), Zip(cs', bs'));
  }

  /** Merge one shard's tables into the totals. */
  method Merge(total: Acc, part: Acc) returns (r: Acc)
    ensures r == MergeAcc(total, part)
  {
    var bp := AddInto(total.bucketPkts, part.bucketPkts);
    var bc := UnionInto(total.bucketCids, part.bucketCids);
    var cb := UnionInto(total.cidBuckets, part.cidBuckets);
    var cp := AddInto(total.cidPkts, part.cidPkts);
    var kp := AddInto(total.kindPkts, part.kindPkts);
    r := Acc(bp, bc, cb, cp, kp);
  }

  // ---- the two phases ----

  lemma EntriesSnoc(learned: Lengths, rows: seq<Row>, r: Row)
    ensures var e, es := EntryOf(learned, r), Entries(learned, rows);
      Entries(learned, rows + [r]) == if e.Some? then es + [e.value] else es
    ensures Skipped(learned, rows + [r]) == Skipped(learned, rows) + if EntryOf(learned, r).None? then 1 else 0
  {
    assert (rows + [r])[..|rows|] == rows;
  }

  lemma SummaryEmpty(h: Hashes)
    ensures Summary(h, []) == NEW_ACC
  {
  }

  method LearnPhase(rows: seq<Row>) returns (learned: Lengths)
    ensures learned == LearnMap(rows)
  {
    learned := map[];
    for i := 0 to |rows|
      invariant learned == LearnMap(rows[..i])
    {
      assert rows[..i + 1][..i] == rows[..i];
      if TeachesLength(rows[i]) {
        learned := learned[rows[i].tuple := rows[i].payload[5] as int];
      }
    }
    assert rows[..|rows|] == rows;
  }

  /** Bucket one DCID and update the five tables. */
  method Fold(h: Hashes, acc: Acc, e: Entry, ghost es: seq<Entry>) returns (r: Acc)
    requires acc == Summary(h, es)
    ensures r == Summary(h, es + [e])
  {
    SummarySnoc(h, es, e);
    r := FoldOne(h, acc, e);
  }

  /** One row of the bucket phase: fold it, or skip it if it is too short. */
  method BucketRow(h: Hashes, acc: Acc, skipped: nat, r: Row, learned: Lengths, ghost rows: seq<Row>)
    returns (acc': Acc, skipped': nat)
    requires acc == Summary(h, Entries(learned, rows)) && skipped == Skipped(learned, rows)
    ensures acc' == Summary(h, Entries(learned, rows + [r])) && skipped' == Skipped(learned, rows + [r])
  {
    EntriesSnoc(learned, rows, r);
    var e := EntryOf(learned, r);
    if e.None? {
      acc', skipped' := acc, skipped + 1;
    } else {
      acc' := Fold(h, acc, e.value, Entries(learned, rows));
      skipped' := skipped;
    }
  }

  method BucketPhase(h: Hashes, rows: seq<Row>, learned: Lengths) returns (acc: Acc, skipped: nat)
    ensures acc == Summary(h, Entries(learned, rows))
    ensures skipped == Skipped(learned, rows)
  {
    acc, skipped := NEW_ACC, 0;
    SummaryEmpty(h);
    for i := 0 to |rows|
      invariant acc == Summary(h, Entries(learned, rows[..i]))
      invariant skipped == Skipped(learned, rows[..i])
    {
      acc, skipped := BucketRow(h, acc, skipped, rows[i], learned, rows[..i]);
      assert rows[..i + 1] == rows[..i] + [rows[i]];
    }
    assert rows[..|rows|] == rows;
  }

  // ---- shards ----

  lemma {:induction false} LearnConcat(a: seq<Row>, b: seq<Row>)
    ensures LearnMap(a + b) == LearnMap(a) + LearnMap(b)
  {
    if b == [] {
      assert a + b == a;
    } else {
      LearnConcat(a, b[..|b| - 1]);
      assert (a + b)[..|a + b| - 1] == a + b[..|b| - 1];
    }
  }

  lemma {:induction false} EntriesConcat(learned: Lengths, a: seq<Row>, b: seq<Row>)
    ensures Entries(learned, a + b) == Entries(learned, a) + Entries(learned, b)
    ensures Skipped(learned, a + b) == Skipped(learned, a) + Skipped(learned, b)
  {
    if b == [] {
      assert a + b == a;
    } else {
      EntriesConcat(learned, a, b[..|b| - 1]);
      assert (a + b)[..|a + b| - 1] == a + b[..|b| - 1];
    }
  }

  lemma {:induction false} RowsConcat(a: seq<Visit>, b: seq<Visit>)
    ensures RowsOf(a + b) == RowsOf(a) + RowsOf(b)
  {
    if b == [] {
      assert a + b == a;
    } else {
      RowsConcat(a, b[..|b| - 1]);
      assert (a + b)[..|a + b| - 1] == a + b[..|b| - 1];
    }
  }

  /** Everything the tool computes from a capture before it reports. */
  datatype Analysis = Analysis(learned: Lengths, acc: Acc, skipped: nat)

  function AnalysisOf(h: Hashes, rows: seq<Row>): Analysis {
    var learned := LearnMap(rows);
    Analysis(learned, Summary(h, Entries(learned, rows)), Skipped(learned, rows))
  }

  function FromVisits(h: Hashes, vs: seq<Visit>): Result<Analysis> {
    match Outcome(vs)
    case Err(e) => Err(e)
    case Ok(rows) => Ok(AnalysisOf(h, rows))
  }

  /** The serial meaning of a run: one walk over the whole file, no jobs, no merging. */
  function Serial(h: Hashes, b: Bytes): Result<Analysis> {
    match FormatOf(b)
    case Err(e) => Err(e)
    case Ok(f) => FromVisits(h, Visits(f, b, Start(f.Layout()), |b|))
  }

  /** The non-empty ranges between consecutive splits. */
  function Ranges(splits: seq<nat>): seq<(nat, nat)> {
    if |splits| < 2 then []
    else
      var n := |splits| - 1;
      Ranges(splits[..n]) + if splits[n - 1] < splits[n] then [(splits[n - 1], splits[n])] else []
  }

  predicate Consecutive(splits: seq<nat>, ranges: seq<(nat, nat)>) {
    |ranges| + 1 == |splits| && forall i :: 0 <= i < |ranges| ==> ranges[i] == (splits[i], splits[i + 1])
  }

  lemma {:induction false} RangesOfIncreasing(splits: seq<nat>)
    requires |splits| >= 1 && forall i :: 0 < i < |splits| ==> splits[i - 1] < splits[i]
    ensures Consecutive(splits, Ranges(splits))
  {
    if |splits| >= 2 {
      RangesOfIncreasing(splits[..|splits| - 1]);
    }
  }

  lemma {:induction false} RangesOfConstant(splits: seq<nat>)
    requires forall i :: 0 < i < |splits| ==> splits[i - 1] == splits[i]
    ensures Ranges(splits) == []
  {
    if |splits| >= 2 {
      RangesOfConstant(splits[..|splits| - 1]);
    }
  }

  /** If there is more than one range, no range was dropped as empty. */
  lemma RangesAreConsecutive(l: Layout, b: Bytes, njobs: nat, splits: seq<nat>)
    requires Tiles(l, b, njobs, splits) && Start(l) <= |b| && |Ranges(splits)| > 1
    ensures Consecutive(splits, Ranges(splits))
  {
    if Start(l) < |b| {
      RangesOfIncreasing(splits);
    } else {
      forall i | 0 <= i < |splits| ensures splits[i] == Start(l) {
        if i < |splits| - 1 {
          assert Reach(l, b, Start(l), splits[i]) && Next(l, b, Start(l)).None?;
        }
      }
      RangesOfConstant(splits);
    }
  }

  lemma {:induction false} FlattenHas<T>(s: seq<seq<T>>, i: nat, x: T)
    requires i < |s| && x in s[i]
    ensures x in Flatten(s)
  {
    if i < |s| - 1 {
      FlattenHas(s[..|s| - 1], i, x);
    }
  }

  lemma FlattenStep<T>(s: seq<seq<T>>, i: nat)
    requires i < |s|
    ensures Flatten(s[..i + 1]) == Flatten(s[..i]) + s[i]
  {
    assert s[..i + 1][..i] == s[..i];
  }

  /** The shard of every range is what the walk meets there. */
  ghost predicate Sharded(f: Format, b: Bytes, ranges: seq<(nat, nat)>, shards: seq<seq<Visit>>) {
    |shards| == |ranges| && forall i :: 0 <= i < |ranges| ==> shards[i] == Visits(f, b, ranges[i].0, ranges[i].1)
  }

  /** Every worker learns from its range; the maps are merged in file order. */
  method LearnShards(f: Format, b: Bytes, ranges: seq<(nat, nat)>, ghost shards: seq<seq<Visit>>)
    returns (r: Result<Lengths>)
    requires Sharded(f, b, ranges, shards)
    ensures r == if Fault in Flatten(shards) then Err(ShortRead) else Ok(LearnMap(RowsOf(Flatten(shards))))
  {
    var learned: Lengths := map[];
    for i := 0 to |ranges|
      invariant Fault !in Flatten(shards[..i])
      invariant learned == LearnMap(RowsOf(Flatten(shards[..i])))
    {
      var rows := IterRange(f, b, ranges[i].0, ranges[i].1);
      if rows.Err? {
        FlattenHas(shards, i, Fault);
        return Err(ShortRead);
      }
      var m := LearnPhase(rows.value);
      FlattenStep(shards, i);
      RowsConcat(Flatten(shards[..i]), shards[i]);
      LearnConcat(RowsOf(Flatten(shards[..i])), RowsOf(shards[i]));
      learned := learned + m;
    }
    assert shards[..|ranges|] == shards;
    r := Ok(learned);
  }

  /** The datagrams that one worker classifies. */
  ghost function EntriesIn(learned: Lengths, vs: seq<Visit>): seq<Entry> {
    Entries(learned, RowsOf(vs))
  }

  /** One worker's tables. */
  ghost predicate PartOf(h: Hashes, vs: seq<Visit>, learned: Lengths, part: (Acc, nat)) {
    part.0 == Summary(h, EntriesIn(learned, vs)) && part.1 == Skipped(learned, RowsOf(vs))
  }

  lemma EntriesInConcat(learned: Lengths, u: seq<Visit>, v: seq<Visit>)
    ensures EntriesIn(learned, u + v) == EntriesIn(learned, u) + EntriesIn(learned, v)
    ensures Skipped(learned, RowsOf(u + v)) == Skipped(learned, RowsOf(u)) + Skipped(learned, RowsOf(v))
  {
    RowsConcat(u, v);
    EntriesConcat(learned, RowsOf(u), RowsOf(v));
  }

  lemma SummariesMerge(h: Hashes, es: seq<Entry>, fs: seq<Entry>, all: seq<Entry>, a: Acc, b: Acc)
    requires a == Summary(h, es) && b == Summary(h, fs) && all == es + fs
    ensures MergeAcc(a, b) == Summary(h, all)
  {
    SummaryConcat(h, es, fs);
  }

  lemma PartsMerge(h: Hashes, u: seq<Visit>, v: seq<Visit>, learned: Lengths, x: (Acc, nat), y: (Acc, nat))
    requires PartOf(h, u, learned, x) && PartOf(h, v, learned, y)
    ensures PartOf(h, u + v, learned, (MergeAcc(x.0, y.0), x.1 + y.1))
  {
    EntriesInConcat(learned, u, v);
    SummariesMerge(h, EntriesIn(learned, u), EntriesIn(learned, v), EntriesIn(learned, u + v), x.0, y.0);
  }

  /** Every worker buckets its range under the complete length map. */
  method BucketShards(h: Hashes, f: Format, b: Bytes, ranges: seq<(nat, nat)>, learned: Lengths,
                      ghost shards: seq<seq<Visit>>)
    returns (parts: seq<(Acc, nat)>)
    requires Sharded(f, b, ranges, shards) && Fault !in Flatten(shards)
    ensures |parts| == |ranges|
    ensures forall i :: 0 <= i < |ranges| ==> PartOf(h, shards[i], learned, parts[i])
  {
    parts := [];
    for i := 0 to |ranges|
      invariant |parts| == i
      invariant forall j :: 0 <= j < i ==> PartOf(h, shards[j], learned, parts[j])
    {
      if Fault in shards[i] {
        FlattenHas(shards, i, Fault);
      }
      var rows := IterRange(f, b, ranges[i].0, ranges[i].1);
      var acc, skipped := BucketPhase(h, rows.value, learned);
      assert PartOf(h, shards[i], learned, (acc, skipped));
      parts := parts + [(acc, skipped)];
    }
  }

  /** Merge the workers' tables. */
  method MergeShards(h: Hashes, parts: seq<(Acc, nat)>, learned: Lengths, ghost shards: seq<seq<Visit>>)
    returns (acc: Acc, skipped: nat)
    requires |parts| == |shards|
    requires forall i :: 0 <= i < |parts| ==> PartOf(h, shards[i], learned, parts[i])
    ensures PartOf(h, Flatten(shards), learned, (acc, skipped))
  {
    acc, skipped := NEW_ACC, 0;
    SummaryEmpty(h);
    for i := 0 to |parts|
      invariant PartOf(h, Flatten(shards[..i]), learned, (acc, skipped))
    {
      FlattenStep(shards, i);
      PartsMerge(h, Flatten(shards[..i]), shards[i], learned, (acc, skipped), parts[i]);
      acc := Merge(acc, parts[i].0);
      skipped := skipped + parts[i].1;
    }
    assert shards[..|parts|] == shards;
  }

  method AnalyzeRange(h: Hashes, f: Format, b: Bytes, start: nat, stop: nat) returns (r: Result<Analysis>)
    ensures r == FromVisits(h, Visits(f, b, start, stop))
  {
    var rows := IterRange(f, b, start, stop);
    if rows.Err? {
      return Err(rows.error);
    }
    var learned := LearnPhase(rows.value);
    var acc, skipped := BucketPhase(h, rows.value, learned);
    r := Ok(Analysis(learned, acc, skipped));
  }

  method AnalyzeShards(h: Hashes, f: Format, b: Bytes, ranges: seq<(nat, nat)>, ghost shards: seq<seq<Visit>>)
    returns (r: Result<Analysis>)
    requires Sharded(f, b, ranges, shards)
    ensures r == FromVisits(h, Flatten(shards))
  {
    var learned := LearnShards(f, b, ranges, shards);
    if learned.Err? {
      return Err(learned.error);
    }
    var parts := BucketShards(h, f, b, ranges, learned.value, shards);
    var acc, skipped := MergeShards(h, parts, learned.value, shards);
    r := Ok(Analysis(learned.value, acc, skipped));
  }

  /** Parallel equals serial: whatever the capture and the number of jobs, the sharded and
      merged run computes what one walk of the whole file computes. */
  method Analyze(h: Hashes, b: Bytes, njobs: nat) returns (r: Result<Analysis>)
    requires njobs >= 1
    ensures r == Serial(h, b)
  {
    var d := Detect(b, njobs);
    if d.Err? {
      return Err(d.error);
    }
    var (f, splits) := d.value;
    var ranges := Ranges(splits);
    if njobs == 1 || |ranges| <= 1 {
      r := AnalyzeRange(h, f, b, splits[0], splits[|splits| - 1]);
    } else {
      RangesAreConsecutive(f.Layout(), b, njobs, splits);
      ShardsTile(f, b, njobs, splits);
      r := AnalyzeShards(h, f, b, ranges, Shards(f, b, splits));
    }
  }
}
