/** Which sets of packets have results that do not depend on packet order at all. */
module Ordering {
  import opened Wire
  import opened Mask
  import opened IngressParser
  import opened Runs
  import opened History

  ghost predicate AllValid(run: seq<Obs>) {
    forall o :: o in run ==> o.quic.Valid()
  }

  /** Every order of the packets of a run leaves the same totals in every array. */
  ghost predicate OrderFree(h: Hashes, run: seq<Obs>) {
    forall s, g :: multiset(s) == multiset(run) ==> Tally(h, run, g) == Tally(h, s, g)
  }

  /** Whether or not a Handshake of the run has been seen makes no difference to a Short: the
      DCID bytes of the Short within the taught length are zero. */
  predicate Indifferent(h: Hashes, short: Obs, hs: Obs)
    requires short.quic.Valid()
  {
    short.quic.Short? && short.force == 0 && Teaches(h, hs, Key(h, short)) ==>
      ZeroBetween(short.quic.Dcid(), 0, Kept(hs.quic.long.dcidLen))
  }

  ghost predicate AllIndifferent(h: Hashes, run: seq<Obs>)
    requires AllValid(run)
  {
    forall x, y :: x in run && y in run ==> Indifferent(h, x, y)
  }

  // ---- indifferent packets do not depend on order ----

  /** After any packets of an indifferent run, a packet is classified as if it came first. */
  lemma ClassifiedAlone(h: Hashes, run: seq<Obs>, before: seq<Obs>, o: Obs)
    requires AllValid(run) && AllIndifferent(h, run) && o in run && forall p :: p in before ==> p in run
    ensures BucketOf(h, before, o) == BucketOf(h, [], o)
  {
    if o.quic.Short? && o.force == 0 {
      var k := Key(h, o);
      LearnedIsLatest(h, before, k);
      if Taught(h, before, k) {
        var j :| IsLatest(h, before, k, j) && Learned(h, before, k) == before[j].quic.long.dcidLen;
        assert Indifferent(h, o, before[j]);
        PaddingsAgree(o.quic.Dcid(), 0, Kept(Learned(h, before, k)));
      }
    }
  }

  lemma TallyAlone(h: Hashes, run: seq<Obs>, s: seq<Obs>, g: Gauge)
    requires AllValid(run) && AllIndifferent(h, run) && forall o :: o in s ==> o in run
    ensures Tally(h, s, g) == SumBy(BatchWeight(h, [], g), s)
  {
    var bs, w := Classify(h, s), BatchWeight(h, [], g);
    forall i | 0 <= i < |s| ensures Weight(g, bs[i], s[i]) == w(s[i]) {
      ClassifiedAlone(h, run, s[..i], s[i]);
    }
    TotalIsSum(bs, s, g, w);
  }

  lemma IndifferentIsOrderFree(h: Hashes, run: seq<Obs>)
    requires AllValid(run) && AllIndifferent(h, run)
    ensures OrderFree(h, run)
  {
    forall s, g | multiset(s) == multiset(run) ensures Tally(h, run, g) == Tally(h, s, g) {
      assert forall o :: o in s ==> o in multiset(run);
      TallyAlone(h, run, run, g);
      TallyAlone(h, run, s, g);
      SumByPermutation(BatchWeight(h, [], g), BatchWeight(h, [], g), run, s);
    }
  }

  // ---- and no others ----

  ghost predicate SameLearned(h: Hashes, a: seq<Obs>, b: seq<Obs>) {
    forall k :: Learned(h, a, k) == Learned(h, b, k)
  }

  /** What `b` has more than `a` in a gauge. */
  function Lead(h: Hashes, a: seq<Obs>, b: seq<Obs>, g: Gauge): int {
    Tally(h, b, g) - Tally(h, a, g)
  }

  lemma SameNext(h: Hashes, a: seq<Obs>, b: seq<Obs>, o: Obs, g: Gauge)
    requires SameLearned(h, a, b)
    ensures SameLearned(h, a + [o], b + [o]) && Lead(h, a + [o], b + [o], g) == Lead(h, a, b, g)
  {
    forall k ensures Learned(h, a + [o], k) == Learned(h, b + [o], k) {
      LearnedSnoc(h, a, o, k);
      LearnedSnoc(h, b, o, k);
    }
    assert Learned(h, a, Key(h, o)) == Learned(h, b, Key(h, o));
    Append(h, a, o, g);
    Append(h, b, o, g);
  }

  lemma SnocTail(a: seq<Obs>, tail: seq<Obs>)
    requires tail != []
    ensures a + tail == (a + tail[..|tail| - 1]) + [tail[|tail| - 1]]
  {
  }

  /** Equal learned lengths stay equal, and totals grow alike, under any further packets. */
  lemma {:induction false} SameTail(h: Hashes, a: seq<Obs>, b: seq<Obs>, tail: seq<Obs>, g: Gauge)
    requires SameLearned(h, a, b)
    ensures SameLearned(h, a + tail, b + tail) && Lead(h, a + tail, b + tail, g) == Lead(h, a, b, g)
  {
    if tail == [] {
      assert a + tail == a && b + tail == b;
    } else {
      var init := tail[..|tail| - 1];
      SameTail(h, a, b, init, g);
      SameNext(h, a + init, b + init, tail[|tail| - 1], g);
      SnocTail(a, tail);
      SnocTail(b, tail);
    }
  }

  /** A Short and a Handshake teach the same in either order. */
  lemma SwapLearns(h: Hashes, short: Obs, hs: Obs)
    requires short.quic.Short?
    ensures SameLearned(h, [] + [short] + [hs], [] + [hs] + [short])
  {
    forall k ensures Learned(h, [] + [short] + [hs], k) == Learned(h, [] + [hs] + [short], k) {
      LearnedSnoc(h, [] + [short], hs, k);
      LearnedSnoc(h, [], short, k);
      LearnedSnoc(h, [] + [hs], short, k);
      LearnedSnoc(h, [], hs, k);
    }
  }

  /** The rest of a run without two of its packets. */
  lemma Without(run: seq<Obs>, x: Obs, y: Obs) returns (rest: seq<Obs>)
    requires x in run && y in run && x != y
    ensures multiset(run) == multiset{x, y} + multiset(rest)
  {
    var i :| 0 <= i < |run| && run[i] == x;
    var t := run[..i] + run[i + 1..];
    DropOne(run, i);
    assert y in multiset(t);
    var j :| 0 <= j < |t| && t[j] == y;
    rest := t[..j] + t[j + 1..];
    DropOne(t, j);
  }

  /** Two starts of a run that teach the same and have different totals. */
  lemma StartShows(h: Hashes, run: seq<Obs>, a: seq<Obs>, b: seq<Obs>, rest: seq<Obs>, g: Gauge)
    requires SameLearned(h, a, b) && Lead(h, a, b, g) != 0
    requires multiset(run) == multiset(a) + multiset(rest) && multiset(a) == multiset(b)
    ensures !OrderFree(h, run)
  {
    SameTail(h, a, b, rest, g);
    var s, t := a + rest, b + rest;
    assert multiset(s) == multiset(run) && multiset(t) == multiset(run);
    assert Tally(h, s, g) != Tally(h, t, g);
  }

  /** A swap that shows at the start of a run shows at its end. */
  lemma SwapShows(h: Hashes, run: seq<Obs>, short: Obs, hs: Obs)
    requires short in run && hs in run && short.quic.Short? && IsHandshake(hs.quic)
    requires !SwapInvisible(h, [], short, hs)
    ensures !OrderFree(h, run)
  {
    var g :| Tally(h, [] + [short] + [hs], g) != Tally(h, [] + [hs] + [short], g);
    var rest := Without(run, short, hs);
    SwapLearns(h, short, hs);
    StartShows(h, run, [] + [short] + [hs], [] + [hs] + [short], rest, g);
  }

  /** Exactly which packets give order-free results, for every run: under every CRC-32 every
      order leaves the same totals in every array, if and only if for each Short under the
      length-aware arm and each Handshake with its flow key, the DCID bytes of the Short within
      the length of that Handshake are zero. */
  lemma OrderFreeExactly(h: Hashes, run: seq<Obs>)
    requires AllValid(run)
    ensures (forall crc32: Bytes -> nat :: OrderFree(WithCrc32(h, crc32), run)) <==> AllIndifferent(h, run)
  {
    if AllIndifferent(h, run) {
      forall crc32: Bytes -> nat ensures OrderFree(WithCrc32(h, crc32), run) {
        forall x, y | x in run && y in run ensures Indifferent(WithCrc32(h, crc32), x, y) {
          assert Indifferent(h, x, y);
        }
        IndifferentIsOrderFree(WithCrc32(h, crc32), run);
      }
    } else {
      var x, y :| x in run && y in run && !Indifferent(h, x, y);
      SwapMatters(h, [], x, y);
      var crc32: Bytes -> nat :| !SwapInvisible(WithCrc32(h, crc32), [], x, y);
      SwapShows(WithCrc32(h, crc32), run, x, y);
    }
  }
}
