/** Theorems about which packets can influence which: the length register remembers the
    latest Handshake and nothing else, the arm leaves no trace, and settled runs do not
    depend on packet order. */
module History {
  import opened Wire
  import opened Mask
  import opened IngressParser
  import opened Runs

  lemma LearnedSnoc(h: Hashes, run: seq<Obs>, o: Obs, k: nat)
    ensures Learned(h, run + [o], k) == if Teaches(h, o, k) then o.quic.long.dcidLen else Learned(h, run, k)
  {
    assert (run + [o])[..|run|] == run;
  }

  lemma Snoc<T>(s: seq<T>)
    requires s != []
    ensures s == s[..|s| - 1] + [s[|s| - 1]]
  {
  }

  lemma Rejoin<T>(s: seq<T>, j: nat)
    requires j < |s|
    ensures s[..j] + [s[j]] + s[j + 1..] == s
  {
  }

  lemma DropOne<T>(s: seq<T>, j: nat)
    requires j < |s|
    ensures multiset(s) == multiset(s[..j] + s[j + 1..]) + multiset{s[j]}
  {
    assert s == s[..j] + [s[j]] + s[j + 1..];
  }

  // ---- the length register ----

  ghost predicate Taught(h: Hashes, run: seq<Obs>, k: nat) {
    exists o :: o in run && Teaches(h, o, k)
  }

  predicate IsLatest(h: Hashes, run: seq<Obs>, k: nat, j: int) {
    0 <= j < |run| && Teaches(h, run[j], k) && forall i :: j < i < |run| ==> !Teaches(h, run[i], k)
  }

  /** The register holds the length of the latest Handshake with that key, or 0. */
  lemma {:induction false} LearnedIsLatest(h: Hashes, run: seq<Obs>, k: nat)
    ensures Taught(h, run, k) ==> exists j :: IsLatest(h, run, k, j) && Learned(h, run, k) == run[j].quic.long.dcidLen
    ensures !Taught(h, run, k) ==> Learned(h, run, k) == 0
  {
    if run != [] {
      var init, last := run[..|run| - 1], run[|run| - 1];
      Snoc(run);
      if Teaches(h, last, k) {
        assert IsLatest(h, run, k, |run| - 1);
      } else {
        LearnedIsLatest(h, init, k);
        if Taught(h, run, k) {
          var o :| o in run && Teaches(h, o, k);
          assert o in init;
          var j :| IsLatest(h, init, k, j) && Learned(h, init, k) == init[j].quic.long.dcidLen;
          assert IsLatest(h, run, k, j);
        }
      }
    }
  }

  function Handshakes(run: seq<Obs>): seq<Obs> {
    if run == [] then []
    else
      var init, last := run[..|run| - 1], run[|run| - 1];
      Handshakes(init) + if IsHandshake(last.quic) then [last] else []
  }

  /** Only Handshakes influence the register. */
  lemma {:induction false} OnlyHandshakesTeach(h: Hashes, run: seq<Obs>, k: nat)
    ensures Learned(h, run, k) == Learned(h, Handshakes(run), k)
  {
    if run != [] {
      var init, last := run[..|run| - 1], run[|run| - 1];
      OnlyHandshakesTeach(h, init, k);
      Snoc(run);
      LearnedSnoc(h, init, last, k);
      if IsHandshake(last.quic) {
        LearnedSnoc(h, Handshakes(init), last, k);
      } else {
        assert Handshakes(run) == Handshakes(init);
      }
    }
  }

  lemma {:induction false} HandshakesConcat(a: seq<Obs>, b: seq<Obs>)
    ensures Handshakes(a + b) == Handshakes(a) + Handshakes(b)
  {
    if b == [] {
      assert a + b == a;
    } else {
      HandshakesConcat(a, b[..|b| - 1]);
      assert (a + b)[..|a + b| - 1] == a + b[..|b| - 1];
    }
  }

  /** Inserting or deleting packets that are not Handshakes, anywhere in a run, changes the
      effective length and the bucket of no other packet. */
  lemma InertPackets(h: Hashes, pre: seq<Obs>, mid: seq<Obs>, post: seq<Obs>, j: nat)
    requires Handshakes(mid) == [] && j < |post|
    ensures EffLen(h, pre + mid + post[..j], post[j]) == EffLen(h, pre + post[..j], post[j])
    ensures BucketOf(h, pre + mid + post[..j], post[j]) == BucketOf(h, pre + post[..j], post[j])
  {
    var p, q, k := pre + mid + post[..j], pre + post[..j], Key(h, post[j]);
    HandshakesConcat(pre + mid, post[..j]);
    HandshakesConcat(pre, mid);
    HandshakesConcat(pre, post[..j]);
    assert Handshakes(p) == Handshakes(q);
    OnlyHandshakesTeach(h, p, k);
    OnlyHandshakesTeach(h, q, k);
  }

  // ---- the arm ----

  /** The same packets, under possibly different arms. */
  predicate SamePackets(r: seq<Obs>, s: seq<Obs>) {
    |r| == |s| && forall i :: 0 <= i < |r| ==> r[i].(force := 0) == s[i].(force := 0)
  }

  /** The arm leaves no trace in what is learned. */
  lemma {:induction false} ArmLeavesNoTrace(h: Hashes, r: seq<Obs>, s: seq<Obs>, k: nat)
    requires SamePackets(r, s)
    ensures Learned(h, r, k) == Learned(h, s, k)
  {
    if r != [] {
      var n := |r| - 1;
      ArmLeavesNoTrace(h, r[..n], s[..n], k);
      assert r[n].(force := 0) == s[n].(force := 0);
    }
  }

  /** Whatever the arms were before, two runs that use the same arm on packet `i` give it
      the same bucket. */
  lemma ArmsRejoin(h: Hashes, r: seq<Obs>, s: seq<Obs>, i: nat)
    requires SamePackets(r, s) && i < |r| && r[i].force == s[i].force
    ensures BucketOf(h, r[..i], r[i]) == BucketOf(h, s[..i], s[i])
  {
    assert r[i].(force := 0) == s[i].(force := 0);
    ArmLeavesNoTrace(h, r[..i], s[..i], Key(h, r[i]));
  }

  /** The length-aware and the naive arm hash the same 20 bytes of a packet exactly when the
      DCID bytes past the learned length are zero. */
  lemma ArmsAgree(h: Hashes, run: seq<Obs>, o: Obs)
    requires o.quic.Valid() && o.force == 0
    ensures Pad20(Cid(h, run, o)) == Pad20(Cid(h, run, o.(force := 20)))
       <==> ZeroBetween(o.quic.Dcid(), Kept(EffLen(h, run, o)), 20)
  {
    var d := o.quic.Dcid();
    PaddingsAgree(d, Kept(EffLen(h, run, o)), 20);
    assert Take(d, 20) == d[..20];
  }

  /** A forced arm of 1 to 20 takes that many DCID bytes of every packet, whatever was learned
      and whatever the header says. */
  lemma ForcedArm(h: Hashes, run: seq<Obs>, o: Obs)
    requires o.quic.Valid() && 1 <= o.force <= 20
    ensures BucketOf(h, run, o) == CidBucket(h, o.quic.Dcid()[..o.force])
  {
    assert Cid(h, run, o) == o.quic.Dcid()[..o.force];
  }

  /** Every length on the wire is 20 and every Short follows a Handshake of its key. */
  ghost predicate FullLength(h: Hashes, run: seq<Obs>) {
    && (forall i :: 0 <= i < |run| ==> run[i].quic.Valid() && (run[i].quic.Long? ==> run[i].quic.long.dcidLen == 20))
    && (forall i :: 0 <= i < |run| && run[i].quic.Short? ==> Taught(h, run[..i], Key(h, run[i])))
  }

  /** On such runs the two arms coincide, packet by packet. */
  lemma ArmsCoincide(h: Hashes, aware: seq<Obs>, naive: seq<Obs>, i: nat)
    requires SamePackets(aware, naive) && FullLength(h, aware) && i < |aware|
    requires aware[i].force == 0 && naive[i].force == 20
    ensures BucketOf(h, aware[..i], aware[i]) == BucketOf(h, naive[..i], naive[i])
  {
    var o := aware[i];
    assert o.(force := 0) == naive[i].(force := 0);
    if o.quic.Short? {
      var k := Key(h, o);
      LearnedIsLatest(h, aware[..i], k);
      var j :| IsLatest(h, aware[..i], k, j) && Learned(h, aware[..i], k) == aware[..i][j].quic.long.dcidLen;
      assert aware[..i][j] == aware[j];
    }
    assert EffLen(h, aware[..i], o) == 20;
  }

  // ---- packet order ----

  /** Handshakes with one flow key agree on the length. */
  ghost predicate Stable(h: Hashes, run: seq<Obs>) {
    forall x, y :: x in run && y in run && Teaches(h, x, Key(h, y)) && IsHandshake(y.quic) ==>
      x.quic.long.dcidLen == y.quic.long.dcidLen
  }

  /** A Short under the length-aware arm comes after some Handshake of its key, if its key
      has any Handshake at all. */
  ghost predicate Ordered(h: Hashes, run: seq<Obs>) {
    forall i :: 0 <= i < |run| && run[i].quic.Short? && run[i].force == 0 && Taught(h, run, Key(h, run[i])) ==>
      Taught(h, run[..i], Key(h, run[i]))
  }

  lemma SameTaughtLength(h: Hashes, r: seq<Obs>, s: seq<Obs>, all: seq<Obs>, k: nat)
    requires Stable(h, all) && (forall o :: o in r || o in s ==> o in all)
    requires Taught(h, r, k) <==> Taught(h, s, k)
    ensures Learned(h, r, k) == Learned(h, s, k)
  {
    LearnedIsLatest(h, r, k);
    LearnedIsLatest(h, s, k);
    if Taught(h, r, k) {
      var i :| IsLatest(h, r, k, i) && Learned(h, r, k) == r[i].quic.long.dcidLen;
      var j :| IsLatest(h, s, k, j) && Learned(h, s, k) == s[j].quic.long.dcidLen;
      assert r[i] in all && s[j] in all;
    }
  }

  /** In a settled run every packet is classified as if the final register contents had been
      there from the start. */
  lemma Settled(h: Hashes, run: seq<Obs>, i: nat)
    requires Stable(h, run) && Ordered(h, run) && i < |run|
    ensures BucketOf(h, run[..i], run[i]) == BucketOf(h, run, run[i])
  {
    var o := run[i];
    if o.quic.Short? && o.force == 0 {
      SameTaughtLength(h, run[..i], run, run, Key(h, o));
    }
  }

  function SumBy(w: Obs -> nat, run: seq<Obs>): nat {
    if run == [] then 0 else SumBy(w, run[..|run| - 1]) + w(run[|run| - 1])
  }

  lemma SumBySnoc(w: Obs -> nat, run: seq<Obs>, o: Obs)
    ensures SumBy(w, run + [o]) == SumBy(w, run) + w(o)
  {
    assert (run + [o])[..|run|] == run;
  }

  lemma {:induction false} SumByConcat(w: Obs -> nat, r: seq<Obs>, s: seq<Obs>)
    ensures SumBy(w, r + s) == SumBy(w, r) + SumBy(w, s)
  {
    if s == [] {
      assert r + s == r;
    } else {
      var init, last := s[..|s| - 1], s[|s| - 1];
      SumByConcat(w, r, init);
      SumBySnoc(w, r + init, last);
      assert r + s == (r + init) + [last];
    }
  }

  lemma SumByMiddle(w: Obs -> nat, a: seq<Obs>, o: Obs, c: seq<Obs>)
    ensures SumBy(w, a + [o] + c) == SumBy(w, a + c) + w(o)
  {
    SumByConcat(w, a + [o], c);
    SumBySnoc(w, a, o);
    SumByConcat(w, a, c);
  }

  lemma SumByDelete(w: Obs -> nat, run: seq<Obs>, j: nat)
    requires j < |run|
    ensures SumBy(w, run) == SumBy(w, run[..j] + run[j + 1..]) + w(run[j])
  {
    SumByMiddle(w, run[..j], run[j], run[j + 1..]);
    Rejoin(run, j);
  }

  lemma {:induction false} SumByPermutation(w: Obs -> nat, v: Obs -> nat, r: seq<Obs>, s: seq<Obs>)
    requires multiset(r) == multiset(s) && forall o :: o in r ==> w(o) == v(o)
    ensures SumBy(w, r) == SumBy(v, s)
    decreases |r|
  {
    if r == [] {
      assert |multiset(s)| == 0;
    } else {
      var n, last := |r| - 1, r[|r| - 1];
      Snoc(r);
      assert last in multiset(s);
      var j :| 0 <= j < |s| && s[j] == last;
      var t := s[..j] + s[j + 1..];
      DropOne(s, j);
      assert multiset(r[..n]) == multiset(r) - multiset{last};
      assert multiset(t) == multiset(s) - multiset{last};
      SumByPermutation(w, v, r[..n], t);
      SumByDelete(v, s, j);
    }
  }

  /** What a packet adds to a gauge when it is classified after `context`. */
  function BatchWeight(h: Hashes, context: seq<Obs>, g: Gauge): Obs -> nat {
    (o: Obs) => Weight(g, BucketOf(h, context, o), o)
  }

  lemma {:induction false} TotalIsSum(bs: seq<nat>, run: seq<Obs>, g: Gauge, w: Obs -> nat)
    requires |bs| == |run| && forall i :: 0 <= i < |run| ==> Weight(g, bs[i], run[i]) == w(run[i])
    ensures Total(bs, run, g) == SumBy(w, run)
  {
    if run != [] {
      var n := |run| - 1;
      TotalIsSum(bs[..n], run[..n], g, w);
    }
  }

  /** Timing-free result: two orderings of the same packets end with the same contents in
      every array. */
  lemma TimingFree(h: Hashes, r: seq<Obs>, s: seq<Obs>)
    requires multiset(r) == multiset(s)
    requires Stable(h, r) && Ordered(h, r) && Ordered(h, s)
    ensures forall g :: Tally(h, r, g) == Tally(h, s, g)
    ensures forall k :: Learned(h, r, k) == Learned(h, s, k)
  {
    assert forall o :: o in r <==> o in multiset(r);
    assert forall o :: o in s <==> o in multiset(s);
    assert Stable(h, s);
    forall k ensures Learned(h, r, k) == Learned(h, s, k) {
      SameTaughtLength(h, r, s, r, k);
    }
    forall o ensures BucketOf(h, r, o) == BucketOf(h, s, o) {
      SameTaughtLength(h, r, s, r, Key(h, o));
    }
    forall g ensures Tally(h, r, g) == Tally(h, s, g) {
      SettledTally(h, r, g);
      SettledTally(h, s, g);
      SumByPermutation(BatchWeight(h, r, g), BatchWeight(h, s, g), r, s);
    }
  }

  /** The totals of a settled run, as if every packet came last. */
  lemma SettledTally(h: Hashes, run: seq<Obs>, g: Gauge)
    requires Stable(h, run) && Ordered(h, run)
    ensures Tally(h, run, g) == SumBy(BatchWeight(h, run, g), run)
  {
    var bs, w := Classify(h, run), BatchWeight(h, run, g);
    forall i | 0 <= i < |run| ensures Weight(g, bs[i], run[i]) == w(run[i]) {
      Settled(h, run, i);
    }
    TotalIsSum(bs, run, g, w);
  }

  // ---- exactly when ----

  /** What is learned depends on the CRC-16 only. */
  lemma {:induction false} LearnedIgnoresCrc32(h: Hashes, crc32: Bytes -> nat, run: seq<Obs>, k: nat)
    ensures Learned(WithCrc32(h, crc32), run, k) == Learned(h, run, k)
  {
    if run != [] {
      LearnedIgnoresCrc32(h, crc32, run[..|run| - 1], k);
    }
  }

  /** Classifying a packet after either of two histories gives the same bucket. */
  predicate SameBucket(h: Hashes, r: seq<Obs>, s: seq<Obs>, o: Obs) {
    BucketOf(h, r, o) == BucketOf(h, s, o)
  }

  /** Two histories give a packet the same bucket under every CRC-32 exactly when the DCID
      bytes between the two effective lengths are zero. */
  lemma HistoriesAgree(h: Hashes, r: seq<Obs>, s: seq<Obs>, o: Obs)
    requires o.quic.Valid()
    ensures (forall crc32: Bytes -> nat :: SameBucket(WithCrc32(h, crc32), r, s, o))
       <==> ZeroBetween(o.quic.Dcid(), Kept(EffLen(h, r, o)), Kept(EffLen(h, s, o)))
  {
    var x, y := Cid(h, r, o), Cid(h, s, o);
    forall crc32: Bytes -> nat
      ensures SameBucket(WithCrc32(h, crc32), r, s, o)
         <==> CidBucket(WithCrc32(h, crc32), x) == CidBucket(WithCrc32(h, crc32), y)
    {
      LearnedIgnoresCrc32(h, crc32, r, Key(h, o));
      LearnedIgnoresCrc32(h, crc32, s, Key(h, o));
    }
    SameUnderEveryCrc32(h, x, y);
    PaddingsAgree(o.quic.Dcid(), Kept(EffLen(h, r, o)), Kept(EffLen(h, s, o)));
  }

  /** For every run: packet `i` is classified, under every CRC-32, as if the final register
      contents had been there from the start, exactly when the DCID bytes between the length
      recalled at the time and the final one are zero. */
  lemma SettledExactly(h: Hashes, run: seq<Obs>, i: nat)
    requires i < |run| && run[i].quic.Valid()
    ensures (forall crc32: Bytes -> nat :: SameBucket(WithCrc32(h, crc32), run[..i], run, run[i]))
       <==> ZeroBetween(run[i].quic.Dcid(), Kept(EffLen(h, run[..i], run[i])), Kept(EffLen(h, run, run[i])))
  {
    HistoriesAgree(h, run[..i], run, run[i]);
  }

  /** No array of the switch tells the two orders apart. */
  ghost predicate SwapInvisible(h: Hashes, run: seq<Obs>, short: Obs, hs: Obs) {
    forall g :: Tally(h, run + [short] + [hs], g) == Tally(h, run + [hs] + [short], g)
  }

  /** Without the ordering condition the claim fails: swapping a Short with the Handshake
      that teaches its key is invisible under every CRC-32 exactly when the DCID bytes of the
      Short between the length known before and the length taught are zero. */
  lemma SwapMatters(h: Hashes, run: seq<Obs>, short: Obs, hs: Obs)
    requires short.quic.Short? && short.quic.Valid() && short.force == 0 && Teaches(h, hs, Key(h, short))
    ensures (forall crc32: Bytes -> nat :: SwapInvisible(WithCrc32(h, crc32), run, short, hs))
       <==> ZeroBetween(short.quic.Dcid(), Kept(Learned(h, run, Key(h, short))), Kept(hs.quic.long.dcidLen))
  {
    forall crc32: Bytes -> nat
      ensures SwapInvisible(WithCrc32(h, crc32), run, short, hs)
         <==> SameBucket(WithCrc32(h, crc32), run, run + [hs], short)
    {
      SwapMovesBucket(WithCrc32(h, crc32), run, short, hs);
    }
    LearnedSnoc(h, run, hs, Key(h, short));
    HistoriesAgree(h, run, run + [hs], short);
  }

  /** Under one CRC-32 the swap is seen exactly when the Short's bucket moves. */
  lemma SwapMovesBucket(h: Hashes, run: seq<Obs>, short: Obs, hs: Obs)
    requires short.quic.Short? && short.force == 0 && Teaches(h, hs, Key(h, short))
    ensures SwapInvisible(h, run, short, hs) <==> SameBucket(h, run, run + [hs], short)
  {
    var early, late, b := BucketOf(h, run, short), BucketOf(h, run + [hs], short), BucketOf(h, run, hs);
    var sh, hsh := run + [short] + [hs], run + [hs] + [short];
    forall g
      ensures Tally(h, sh, g) == Tally(h, run, g) + Weight(g, early, short) + Weight(g, b, hs)
      ensures Tally(h, hsh, g) == Tally(h, run, g) + Weight(g, b, hs) + Weight(g, late, short)
    {
      TwoMore(h, run, short, hs, g);
      TwoMore(h, run, hs, short, g);
    }
    if early != late {
      assert Tally(h, sh, Hits(early)) == Tally(h, run, Hits(early)) + 1 + Weight(Hits(early), b, hs);
      assert Tally(h, hsh, Hits(early)) == Tally(h, run, Hits(early)) + Weight(Hits(early), b, hs);
    }
  }

  lemma TwoMore(h: Hashes, run: seq<Obs>, x: Obs, y: Obs, g: Gauge)
    ensures Tally(h, run + [x] + [y], g)
         == Tally(h, run, g) + Weight(g, BucketOf(h, run, x), x) + Weight(g, BucketOf(h, run + [x], y), y)
  {
    Append(h, run, x, g);
    Append(h, run + [x], y, g);
  }
}
