/** The precision report of the offline tool: collisions, splits and accuracy, and what the
    accuracy figure really measures. */
module Accuracy {
  import opened Wire
  import opened Tables
  import opened Sums
  import opened Hex
  import opened Capture
  import opened Offline

  lemma {:induction false} CounterTotal<K(!new)>(s: seq<K>)
    ensures SetSum(Counter(s).Keys, Counter(s)) == |s|
  {
    if s == [] {
      assert Counter(s).Keys == {};
    } else {
      var init, k := s[..|s| - 1], s[|s| - 1];
      var m, n := Counter(init), Counter(s);
      CounterTotal(init);
      assert s == init + [k];
      CounterSnoc(init, k);
      SetSumRemove(n.Keys, n, k);
      assert n.Keys - {k} == m.Keys - {k};
      SetSumAgree(n.Keys - {k}, m, n);
      if k in m {
        SetSumRemove(m.Keys, m, k);
      } else {
        assert m.Keys - {k} == m.Keys;
      }
    }
  }

  // ---- the two relations between buckets and connection IDs ----

  function Sizes<K, V>(m: map<K, set<V>>): map<K, nat> {
    map k | k in m :: |m[k]|
  }

  /** The keys that hold more than one value. */
  function Collisions<K, V>(m: map<K, set<V>>): map<K, set<V>> {
    map k | k in m && |m[k]| > 1 :: m[k]
  }

  /** Equal connection IDs have equal buckets. */
  predicate Determines(cs: seq<string>, bs: seq<nat>)
    requires |cs| == |bs|
  {
    forall i, j :: 0 <= i < |cs| && 0 <= j < |cs| && cs[i] == cs[j] ==> bs[i] == bs[j]
  }

  lemma ZipHas<A(!new), B(!new)>(a: seq<A>, b: seq<B>, k: A, v: B)
    requires |a| == |b|
    ensures v in Values(Zip(a, b), k) <==> exists i :: 0 <= i < |a| && a[i] == k && b[i] == v
  {
    var s := Zip(a, b);
    if v in Values(s, k) {
      var p :| p in s && p.0 == k && p.1 == v;
      var i :| 0 <= i < |s| && s[i] == p;
      assert a[i] == k && b[i] == v;
    }
    if i :| 0 <= i < |a| && a[i] == k && b[i] == v {
      assert s[i] == (k, v);
    }
  }

  lemma ZipKeys<A(!new), B(!new)>(a: seq<A>, b: seq<B>)
    requires |a| == |b|
    ensures Relation(Zip(a, b)).Keys == Counter(a).Keys
    ensures forall k :: k in a ==> Relation(Zip(a, b))[k] == Values(Zip(a, b), k)
  {
    var s := Zip(a, b);
    forall k ensures k in Relation(s) <==> k in a {
      RelationAt(s, k);
      if k in a {
        var i :| 0 <= i < |a| && a[i] == k;
        assert s[i].0 == k;
      }
    }
    forall k | k in a ensures Relation(s)[k] == Values(s, k) {
      RelationAt(s, k);
    }
  }

  /** Every connection ID lies in exactly one bucket. */
  lemma SingleBucket(bs: seq<nat>, cs: seq<string>, i: nat)
    requires |bs| == |cs| && Determines(cs, bs) && i < |cs|
    ensures Values(Zip(cs, bs), cs[i]) == {bs[i]}
  {
    forall b ensures b in Values(Zip(cs, bs), cs[i]) <==> b == bs[i] {
      ZipHas(cs, bs, cs[i], b);
    }
  }

  ghost function CidsIn(bs: seq<nat>, cs: seq<string>, keys: set<nat>): set<string>
    requires |bs| == |cs|
  {
    set i | 0 <= i < |bs| && bs[i] in keys :: cs[i]
  }

  lemma CidsInSplit(bs: seq<nat>, cs: seq<string>, keys: set<nat>, b: nat)
    requires |bs| == |cs| && Determines(cs, bs) && b in keys
    ensures CidsIn(bs, cs, keys) == CidsIn(bs, cs, keys - {b}) + Values(Zip(bs, cs), b)
    ensures CidsIn(bs, cs, keys - {b}) !! Values(Zip(bs, cs), b)
  {
    forall c
      ensures c in CidsIn(bs, cs, keys) <==> c in CidsIn(bs, cs, keys - {b}) || c in Values(Zip(bs, cs), b)
      ensures !(c in CidsIn(bs, cs, keys - {b}) && c in Values(Zip(bs, cs), b))
    {
      ZipHas(bs, cs, b, c);
    }
  }

  /** The sizes of the sets of connection IDs add up. */
  lemma {:induction false} PartitionSize(bs: seq<nat>, cs: seq<string>, keys: set<nat>)
    requires |bs| == |cs| && Determines(cs, bs) && forall b :: b in keys ==> b in bs
    ensures SetSum(keys, Sizes(Relation(Zip(bs, cs)))) == |CidsIn(bs, cs, keys)|
    decreases |keys|
  {
    var m := Relation(Zip(bs, cs));
    if keys == {} {
      assert CidsIn(bs, cs, keys) == {};
    } else {
      var b :| b in keys;
      PartitionSize(bs, cs, keys - {b});
      CidsInSplit(bs, cs, keys, b);
      SetSumRemove(keys, Sizes(m), b);
      ZipKeys(bs, cs);
    }
  }

  lemma PartitionAll(bs: seq<nat>, cs: seq<string>)
    requires |bs| == |cs| && Determines(cs, bs)
    ensures var m := Relation(Zip(bs, cs));
      && SetSum(m.Keys, Sizes(m)) == |Counter(cs).Keys|
      && forall b :: b in m ==> |m[b]| >= 1
  {
    var m := Relation(Zip(bs, cs));
    ZipKeys(bs, cs);
    PartitionSize(bs, cs, m.Keys);
    assert CidsIn(bs, cs, m.Keys) == Counter(cs).Keys;
    forall b | b in m ensures |m[b]| >= 1 {
      var i :| 0 <= i < |bs| && bs[i] == b;
      ZipHas(bs, cs, b, cs[i]);
      assert cs[i] in m[b];
    }
  }

  // ---- the report ----

  datatype Precision = Precision(
    collisions: map<nat, set<string>>, splits: map<string, set<nat>>,
    nCids: nat, nBucket: nat, totalPkts: nat, cidsCollided: nat, pktsCollided: nat,
    separated: int, accuracy: real)

  lemma CidDeterminesBucket(h: Hashes, es: seq<Entry>)
    ensures Determines(CidsOf(es), BucketsOf(h, es))
  {
    forall i, j | 0 <= i < |es| && 0 <= j < |es| && CidsOf(es)[i] == CidsOf(es)[j]
      ensures BucketsOf(h, es)[i] == BucketsOf(h, es)[j]
    {
      HexInjective(es[i].dcid, es[j].dcid);
    }
  }

  /** No connection ID is ever split over two buckets. */
  lemma NoSplits(h: Hashes, es: seq<Entry>, c: string)
    requires c in Summary(h, es).cidBuckets
    ensures |Summary(h, es).cidBuckets[c]| == 1
  {
    var bs, cs := BucketsOf(h, es), CidsOf(es);
    CidDeterminesBucket(h, es);
    ZipKeys(cs, bs);
    var i :| 0 <= i < |cs| && cs[i] == c;
    SingleBucket(bs, cs, i);
  }

  lemma SameOccupied(h: Hashes, es: seq<Entry>)
    ensures Summary(h, es).bucketPkts.Keys == Summary(h, es).bucketCids.Keys
    ensures Summary(h, es).cidPkts.Keys == Summary(h, es).cidBuckets.Keys
    ensures forall b :: b in Summary(h, es).bucketPkts ==> b < BUCKETS
  {
    ZipKeys(BucketsOf(h, es), CidsOf(es));
    ZipKeys(CidsOf(es), BucketsOf(h, es));
  }

  /** A connection ID is in the set of a bucket exactly when that bucket is all it has. */
  predicate FiledAlike(acc: Acc, b: nat, c: string) {
    b in acc.bucketCids && c in acc.bucketCids[b] <==> c in acc.cidBuckets && acc.cidBuckets[c] == {b}
  }

  predicate FiledOnce(acc: Acc, c: string)
    requires c in acc.cidBuckets
  {
    |acc.cidBuckets[c]| == 1
  }

  /** The buckets' sets of connection IDs partition the connection IDs. */
  ghost predicate Partition(acc: Acc) {
    && (forall b, c :: FiledAlike(acc, b, c))
    && (forall c :: c in acc.cidBuckets ==> FiledOnce(acc, c))
  }

  /** In plain words: the sets of different buckets are disjoint, and together they hold every
      connection ID. */
  lemma PartitionMeans(acc: Acc)
    requires Partition(acc)
    ensures forall b, b' :: b in acc.bucketCids && b' in acc.bucketCids && b != b' ==>
      acc.bucketCids[b] !! acc.bucketCids[b']
    ensures forall c :: c in acc.cidBuckets <==> exists b :: b in acc.bucketCids && c in acc.bucketCids[b]
  {
    forall b, b' | b in acc.bucketCids && b' in acc.bucketCids && b != b'
      ensures acc.bucketCids[b] !! acc.bucketCids[b']
    {
      forall c | c in acc.bucketCids[b] ensures c !in acc.bucketCids[b'] {
        assert FiledAlike(acc, b, c) && FiledAlike(acc, b', c);
        assert b' !in {b};
      }
    }
    forall c ensures c in acc.cidBuckets <==> exists b :: b in acc.bucketCids && c in acc.bucketCids[b] {
      if c in acc.cidBuckets {
        assert FiledOnce(acc, c);
        var b := Only(acc.cidBuckets[c]);
        assert FiledAlike(acc, b, c);
      }
      if b :| b in acc.bucketCids && c in acc.bucketCids[b] {
        assert FiledAlike(acc, b, c);
      }
    }
  }

  lemma Only(s: set<nat>) returns (b: nat)
    requires |s| == 1
    ensures s == {b}
  {
    b :| b in s;
    assert |s - {b}| == 0;
  }

  lemma BothWays(bs: seq<nat>, cs: seq<string>, b: nat, c: string)
    requires |bs| == |cs| && Determines(cs, bs)
    ensures c in Values(Zip(bs, cs), b) <==> c in cs && Values(Zip(cs, bs), c) == {b}
  {
    ZipHas(bs, cs, b, c);
    if c in cs {
      var i :| 0 <= i < |cs| && cs[i] == c;
      SingleBucket(bs, cs, i);
    }
  }

  lemma SummaryFilesAlike(h: Hashes, es: seq<Entry>, b: nat, c: string)
    ensures FiledAlike(Summary(h, es), b, c)
  {
    var bs, cs := BucketsOf(h, es), CidsOf(es);
    CidDeterminesBucket(h, es);
    BothWays(bs, cs, b, c);
    RelationAt(Zip(bs, cs), b);
    ZipKeys(cs, bs);
  }

  lemma SummaryPartitions(h: Hashes, es: seq<Entry>)
    ensures Partition(Summary(h, es))
  {
    var acc := Summary(h, es);
    forall b, c ensures FiledAlike(acc, b, c) {
      SummaryFilesAlike(h, es, b, c);
    }
    forall c | c in acc.cidBuckets ensures FiledOnce(acc, c) {
      NoSplits(h, es, c);
    }
  }

  /** The buckets partition the connection IDs; their sizes add up to the number of IDs, and
      no occupied bucket is without one. */
  lemma BucketsPartitionCids(h: Hashes, es: seq<Entry>)
    ensures var acc := Summary(h, es);
      && Partition(acc)
      && SetSum(acc.bucketCids.Keys, Sizes(acc.bucketCids)) == |acc.cidPkts.Keys|
      && forall b :: b in acc.bucketCids ==> |acc.bucketCids[b]| >= 1
  {
    SummaryPartitions(h, es);
    CidDeterminesBucket(h, es);
    PartitionAll(BucketsOf(h, es), CidsOf(es));
  }

  lemma Separation(m: map<nat, set<string>>, collisions: map<nat, set<string>>, n: nat)
    requires SetSum(m.Keys, Sizes(m)) == n && forall b :: b in m ==> |m[b]| >= 1
    requires collisions == Collisions(m)
    ensures n - SetSum(collisions.Keys, Sizes(collisions)) + |collisions| == |m.Keys|
    ensures n == |m.Keys| <==> collisions == map[]
    ensures n == 0 ==> |m.Keys| == 0
  {
    var bad := collisions.Keys;
    SetSumSplit(m.Keys, bad, Sizes(m));
    SetSumAgree(bad, Sizes(m), Sizes(collisions));
    AllOnes(m.Keys - bad, Sizes(m));
    AtLeastTwo(bad, Sizes(collisions));
    assert |m.Keys| == |bad| + |m.Keys - bad|;
  }

  lemma {:induction false} BoundedKeys(keys: set<nat>, n: nat)
    requires forall k :: k in keys ==> k < n
    ensures |keys| <= n
  {
    if n > 0 {
      BoundedKeys(keys - {n - 1}, n - 1);
      if n - 1 !in keys {
        assert keys - {n - 1} == keys;
      }
    } else {
      assert keys == {};
    }
  }

  function AccuracyOf(separated: int, nCids: nat): real {
    if nCids != 0 then separated as real / nCids as real * 100.0 else 100.0
  }

  /** The accuracy figure is the share of occupied buckets among the connection IDs: it is
      100 exactly when there is no collision, and the size of the register bounds it for
      overloaded captures. */
  predicate Figure(accuracy: real, nBucket: nat, nCids: nat, clean: bool) {
    && (nCids > 0 ==> accuracy * nCids as real == 100.0 * nBucket as real)
    && (accuracy == 100.0 <==> clean)
    && accuracy * nCids as real <= 100.0 * BUCKETS as real
  }

  lemma AccuracyFigure(nBucket: nat, nCids: nat, clean: bool)
    requires nBucket <= BUCKETS && (nCids == 0 ==> nBucket == 0) && (clean <==> nCids == nBucket)
    ensures Figure(AccuracyOf(nBucket, nCids), nBucket, nCids, clean)
  {
    if nCids > 0 {
      Ratio(nBucket as real, nCids as real);
    }
  }

  lemma Ratio(x: real, y: real)
    requires y > 0.0
    ensures x / y * 100.0 * y == 100.0 * x
    ensures x / y * 100.0 == 100.0 <==> x == y
  {
    var q := x / y;
    assert q * y == x;
    assert q * 100.0 * y == (q * y) * 100.0;
  }

  /** What holds of the tables of every capture with `n` classified datagrams. */
  ghost predicate Sound(acc: Acc, n: nat) {
    && acc.bucketPkts.Keys == acc.bucketCids.Keys && acc.cidPkts.Keys == acc.cidBuckets.Keys
    && Partition(acc)
    && |acc.bucketPkts.Keys| <= BUCKETS
    && (forall b :: b in acc.bucketCids ==> |acc.bucketCids[b]| >= 1)
    && SetSum(acc.bucketCids.Keys, Sizes(acc.bucketCids)) == |acc.cidBuckets|
    && SetSum(acc.bucketPkts.Keys, acc.bucketPkts) == n
  }

  /** Splits never happen, the buckets' sets of connection IDs partition the connection IDs,
      and no packet is lost, for every sequence of classified datagrams. */
  lemma SummaryIsSound(h: Hashes, es: seq<Entry>)
    ensures Sound(Summary(h, es), |es|)
  {
    var acc := Summary(h, es);
    CounterTotal(BucketsOf(h, es));
    BucketsPartitionCids(h, es);
    SameOccupied(h, es);
    BoundedKeys(acc.bucketPkts.Keys, BUCKETS);
  }

  /** What the report says of sound tables. */
  ghost predicate Accurate(acc: Acc, n: nat, p: Precision) {
    && p.splits == map[] && Partition(acc)
    && p.collisions == Collisions(acc.bucketCids)
    && p.nCids == |acc.cidBuckets| && p.nBucket == |acc.bucketPkts| && p.totalPkts == n
    && p.separated == p.nBucket <= BUCKETS
    && Figure(p.accuracy, p.nBucket, p.nCids, p.collisions == map[])
    && p.cidsCollided == SetSum(p.collisions.Keys, Sizes(p.collisions))
    && p.pktsCollided == SetSum(p.collisions.Keys, acc.bucketPkts)
  }

  /** The precision analysis. */
  method Report(acc: Acc, ghost n: nat) returns (p: Precision)
    requires Sound(acc, n)
    ensures Accurate(acc, n, p)
  {
    var collisions := Collisions(acc.bucketCids);
    var splits := Collisions(acc.cidBuckets);
    var nCids, nBucket := |acc.cidBuckets|, |acc.bucketPkts|;
    var totalPkts := SumOver(acc.bucketPkts.Keys, acc.bucketPkts);
    var cidsCollided := SumOver(collisions.Keys, Sizes(collisions));
    var pktsCollided := SumOver(collisions.Keys, acc.bucketPkts);
    var separated := nCids - cidsCollided + |collisions|;
    assert splits == map[] by {
      assert forall c :: c in acc.cidBuckets ==> FiledOnce(acc, c);
    }
    Separation(acc.bucketCids, collisions, nCids);
    assert nBucket == |acc.bucketPkts.Keys|;
    assert separated == nBucket;
    AccuracyFigure(nBucket, nCids, collisions == map[]);
    p := Precision(collisions, splits, nCids, nBucket, totalPkts, cidsCollided, pktsCollided, separated,
                   AccuracyOf(separated, nCids));
  }

  /** The whole tool: analyze a capture with any number of jobs and report. */
  method Evaluate(h: Hashes, b: Bytes, njobs: nat) returns (r: Result<(Analysis, Precision)>)
    requires njobs >= 1
    ensures Serial(h, b).Err? ==> r == Err(Serial(h, b).error)
    ensures Serial(h, b).Ok? ==>
      && r.Ok? && r.value.0 == Serial(h, b).value
      && Accurate(r.value.0.acc, |Classified(h, b)|, r.value.1)
  {
    var a := Analyze(h, b, njobs);
    if a.Err? {
      return Err(a.error);
    }
    ghost var es := Classified(h, b);
    SummaryIsSound(h, es);
    var p := Report(a.value.acc, |es|);
    r := Ok((a.value, p));
  }

  /** The classified datagrams of a capture that can be analyzed. */
  ghost function Classified(h: Hashes, b: Bytes): (es: seq<Entry>)
    requires Serial(h, b).Ok?
    ensures Serial(h, b).value.acc == Summary(h, es)
  {
    var f := FormatOf(b).value;
    var rows := Outcome(Visits(f, b, Start(f.Layout()), |b|)).value;
    Entries(LearnMap(rows), rows)
  }
}
