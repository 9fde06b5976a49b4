/** The batch tool and the switch agree: for every capture within stated conditions, the
    register of the switch that processed the frames is the offline packet count. */
module Agreement {
  import opened Wire
  import opened Mask
  import opened IngressParser
  import opened Runs
  import History
  import opened Tables
  import opened Capture
  import Offline

  // ---- one packet ----

  /** The payload prefix of a row holds the header that the switch extracted. */
  predicate Carries(r: Row, o: Obs) {
    var pl := r.payload;
    && r.tuple == o.tuple
    && match o.quic
       case Long(l) =>
         && |pl| >= 26 && IsLongByte(pl[0]) && ((pl[0] >> 4) & 3) as bv2 == l.packetType
         && pl[5] as int == l.dcidLen && pl[6..26] == l.dcid
       case Short(s) => |pl| >= 21 && !IsLongByte(pl[0]) && pl[1..21] == s.dcid
  }

  /** The length that the offline tool uses for a packet. */
  function OfflineLen(lens: Offline.Lengths, o: Obs): nat {
    match o.quic
    case Long(l) => l.dcidLen
    case Short(_) => Get(lens, o.tuple)
  }

  lemma LongBit(b: bv8)
    ensures b & 0x80 != 0 <==> IsLongByte(b)
  {
  }

  /** The offline tool hashes the leading bytes of the same DCID, cut at 20. */
  lemma OfflineInput(lens: Offline.Lengths, r: Row, o: Obs)
    requires Carries(r, o)
    ensures var e := Offline.EntryOf(lens, r);
      e.Some? && Pad20(e.value.dcid) == Pad20(Take(o.quic.Dcid(), OfflineLen(lens, o)))
  {
    var pl := r.payload;
    LongBit(pl[0]);
    var at := if o.quic.Long? then 6 else 1;
    assert o.quic.Dcid() == pl[at..at + 20];
    PrefixOfPrefix(pl[at..], OfflineLen(lens, o));
    assert pl[at..][..20] == pl[at..at + 20];
  }

  lemma PrefixOfPrefix(b: Bytes, n: nat)
    requires |b| >= 20
    ensures Pad20(Take(b, n)) == Pad20(Take(b[..20], n))
  {
  }

  /** Exactly when do switch and offline tool hash the same 20 bytes of a packet: when the
      DCID bytes between the two lengths they use are all zero. A length over 20 counts as 0
      on the switch and as 20 offline. */
  lemma PacketAgreesExactly(h: Hashes, run: seq<Obs>, lens: Offline.Lengths, r: Row, o: Obs)
    requires Carries(r, o) && o.quic.Valid()
    ensures var e := Offline.EntryOf(lens, r);
      && e.Some?
      && (Pad20(e.value.dcid) == Pad20(Cid(h, run, o)) <==>
            ZeroBetween(o.quic.Dcid(), Kept(EffLen(h, run, o)), Min(OfflineLen(lens, o), 20)))
  {
    OfflineInput(lens, r, o);
    PaddingsAgree(o.quic.Dcid(), Kept(EffLen(h, run, o)), Min(OfflineLen(lens, o), 20));
  }

  // ---- a run ----

  predicate Paired(rows: seq<Row>, run: seq<Obs>) {
    |rows| == |run| && forall i :: 0 <= i < |rows| ==> Carries(rows[i], run[i]) && run[i].quic.Valid()
  }

  /** Row and packet teach the same length for the same 4-tuple, or nothing. */
  predicate SameLesson(r: Row, o: Obs) {
    && r.tuple == o.tuple
    && (Offline.TeachesLength(r) <==> IsHandshake(o.quic))
    && (IsHandshake(o.quic) ==> r.payload[5] as int == o.quic.long.dcidLen)
  }

  lemma PairTeaches(r: Row, o: Obs)
    requires Carries(r, o)
    ensures SameLesson(r, o)
  {
    HandshakeTest(r.payload[0]);
  }

  ghost predicate HasHandshake(run: seq<Obs>, t: FourTuple) {
    exists o :: o in run && IsHandshake(o.quic) && o.tuple == t
  }

  ghost predicate TaughtAs(run: seq<Obs>, t: FourTuple, n: nat) {
    exists o :: o in run && IsHandshake(o.quic) && o.tuple == t && o.quic.long.dcidLen == n
  }

  lemma HandshakeSnoc(run: seq<Obs>, o: Obs, t: FourTuple, n: nat)
    ensures HasHandshake(run + [o], t) <==> HasHandshake(run, t) || (IsHandshake(o.quic) && o.tuple == t)
    ensures TaughtAs(run + [o], t, n) <==>
      TaughtAs(run, t, n) || (IsHandshake(o.quic) && o.tuple == t && o.quic.long.dcidLen == n)
  {
    assert forall p :: p in run + [o] <==> p in run || p == o;
  }

  lemma {:induction false} LessonsTaught(rows: seq<Row>, run: seq<Obs>, t: FourTuple)
    requires |rows| == |run| && forall i :: 0 <= i < |rows| ==> SameLesson(rows[i], run[i])
    ensures t in Offline.LearnMap(rows) <==> HasHandshake(run, t)
    ensures t in Offline.LearnMap(rows) ==> TaughtAs(run, t, Offline.LearnMap(rows)[t])
  {
    if rows != [] {
      var n := |rows| - 1;
      LessonsTaught(rows[..n], run[..n], t);
      assert SameLesson(rows[n], run[n]);
      assert run == run[..n] + [run[n]];
      HandshakeSnoc(run[..n], run[n], t, Get(Offline.LearnMap(rows), t));
    }
  }

  /** Exactly the 4-tuples with a Handshake are learned, each with a length that one of its
      Handshakes carried. */
  lemma LearnMapTaught(rows: seq<Row>, run: seq<Obs>, t: FourTuple)
    requires Paired(rows, run)
    ensures t in Offline.LearnMap(rows) <==> HasHandshake(run, t)
    ensures t in Offline.LearnMap(rows) ==> TaughtAs(run, t, Offline.LearnMap(rows)[t])
  {
    forall i | 0 <= i < |rows| ensures SameLesson(rows[i], run[i]) {
      PairTeaches(rows[i], run[i]);
    }
    LessonsTaught(rows, run, t);
  }

  /** All Handshakes of one 4-tuple carry the same length. */
  ghost predicate TuplesAgree(run: seq<Obs>) {
    forall x, y :: x in run && y in run && IsHandshake(x.quic) && IsHandshake(y.quic) && x.tuple == y.tuple ==>
      x.quic.long.dcidLen == y.quic.long.dcidLen
  }

  /** No Short precedes the first Handshake of its 4-tuple, if there is one. */
  ghost predicate HandshakeFirst(run: seq<Obs>) {
    forall i :: 0 <= i < |run| && run[i].quic.Short? && HasHandshake(run, run[i].tuple) ==>
      HasHandshake(run[..i], run[i].tuple)
  }

  /** The 16-bit flow key merges the 4-tuple of a Short only with 4-tuples of the same
      learned, or absent, length. */
  ghost predicate MergesHarmless(h: Hashes, run: seq<Obs>, lens: Offline.Lengths) {
    forall x, y :: x in run && y in run && x.quic.Short? && IsHandshake(y.quic) && Key(h, x) == Key(h, y) ==>
      Get(lens, x.tuple) == Get(lens, y.tuple)
  }

  ghost predicate Conditions(h: Hashes, run: seq<Obs>, lens: Offline.Lengths) {
    && (forall o :: o in run ==> o.force == 0 && (o.quic.Long? ==> o.quic.long.dcidLen <= 20))
    && TuplesAgree(run) && HandshakeFirst(run) && MergesHarmless(h, run, lens)
  }

  /** Every Handshake with the flow key of a Short carries the length that the offline map
      holds for the Short. */
  lemma SharedKey(h: Hashes, rows: seq<Row>, run: seq<Obs>, x: Obs, y: Obs)
    requires Paired(rows, run) && Conditions(h, run, Offline.LearnMap(rows))
    requires x in run && x.quic.Short? && y in run && IsHandshake(y.quic) && Key(h, x) == Key(h, y)
    ensures y.quic.long.dcidLen == Get(Offline.LearnMap(rows), x.tuple) <= 20
  {
    LearnMapTaught(rows, run, y.tuple);
    assert HasHandshake(run, y.tuple);
    var z :| z in run && IsHandshake(z.quic) && z.tuple == y.tuple &&
             z.quic.long.dcidLen == Offline.LearnMap(rows)[y.tuple];
  }

  /** The register recalls, at every Short, what the complete offline map says. */
  lemma RecallIsLookup(h: Hashes, rows: seq<Row>, run: seq<Obs>, i: nat)
    requires Paired(rows, run) && Conditions(h, run, Offline.LearnMap(rows))
    requires i < |run| && run[i].quic.Short?
    ensures Learned(h, run[..i], Key(h, run[i])) == Get(Offline.LearnMap(rows), run[i].tuple) <= 20
  {
    var o := run[i];
    var k := Key(h, o);
    History.LearnedIsLatest(h, run[..i], k);
    LearnMapTaught(rows, run, o.tuple);
    if History.Taught(h, run[..i], k) {
      var j :| History.IsLatest(h, run[..i], k, j) && Learned(h, run[..i], k) == run[..i][j].quic.long.dcidLen;
      SharedKey(h, rows, run, o, run[j]);
    } else {
      assert !HasHandshake(run[..i], o.tuple) by {
        if x :| x in run[..i] && IsHandshake(x.quic) && x.tuple == o.tuple {
          assert Teaches(h, x, k);
        }
      }
    }
  }

  /** Both sides put packet `i` into the same bucket. */
  ghost predicate AgreeAt(h: Hashes, lens: Offline.Lengths, rows: seq<Row>, run: seq<Obs>, i: nat)
    requires i < |rows| && i < |run|
  {
    var e := Offline.EntryOf(lens, rows[i]);
    e.Some? && CidBucket(h, e.value.dcid) == BucketOf(h, run[..i], run[i])
  }

  lemma BucketsAgree(h: Hashes, rows: seq<Row>, run: seq<Obs>, i: nat)
    requires Paired(rows, run) && Conditions(h, run, Offline.LearnMap(rows)) && i < |run|
    ensures AgreeAt(h, Offline.LearnMap(rows), rows, run, i)
  {
    var o, lens := run[i], Offline.LearnMap(rows);
    assert o in run && Carries(rows[i], o);
    OfflineInput(lens, rows[i], o);
    if o.quic.Short? {
      RecallIsLookup(h, rows, run, i);
    }
    assert Kept(EffLen(h, run[..i], o)) == OfflineLen(lens, o);
  }

  lemma {:induction false} AllClassified(lens: Offline.Lengths, rows: seq<Row>)
    requires forall i :: 0 <= i < |rows| ==> Offline.EntryOf(lens, rows[i]).Some?
    ensures |Offline.Entries(lens, rows)| == |rows|
    ensures forall i :: 0 <= i < |rows| ==> Offline.Entries(lens, rows)[i] == Offline.EntryOf(lens, rows[i]).value
  {
    if rows != [] {
      AllClassified(lens, rows[..|rows| - 1]);
    }
  }

  /** Both sides assign the same sequence of buckets. */
  lemma SameBuckets(h: Hashes, rows: seq<Row>, run: seq<Obs>)
    requires Paired(rows, run) && Conditions(h, run, Offline.LearnMap(rows))
    ensures Classify(h, run) == Offline.BucketsOf(h, Offline.Entries(Offline.LearnMap(rows), rows))
  {
    var lens := Offline.LearnMap(rows);
    forall i | 0 <= i < |run| ensures AgreeAt(h, lens, rows, run, i) {
      BucketsAgree(h, rows, run, i);
    }
    ListsAgree(h, lens, rows, run);
  }

  lemma ListsAgree(h: Hashes, lens: Offline.Lengths, rows: seq<Row>, run: seq<Obs>)
    requires |rows| == |run| && forall i :: 0 <= i < |run| ==> AgreeAt(h, lens, rows, run, i)
    ensures Classify(h, run) == Offline.BucketsOf(h, Offline.Entries(lens, rows))
  {
    forall i | 0 <= i < |rows| ensures Offline.EntryOf(lens, rows[i]).Some? {
      assert AgreeAt(h, lens, rows, run, i);
    }
    AllClassified(lens, rows);
    forall i | 0 <= i < |rows| ensures Classify(h, run)[i] == Offline.BucketsOf(h, Offline.Entries(lens, rows))[i] {
      assert AgreeAt(h, lens, rows, run, i);
    }
  }

  /** Batch refines online, for a run and the rows that describe it. */
  lemma RunsAgree(h: Hashes, rows: seq<Row>, run: seq<Obs>, b: nat)
    requires Paired(rows, run) && Conditions(h, run, Offline.LearnMap(rows))
    ensures Tally(h, run, Hits(b)) == Get(Offline.AnalysisOf(h, rows).acc.bucketPkts, b)
  {
    SameBuckets(h, rows, run);
    HitsAreOccurrences(h, run, b);
  }

  // ---- exactly when ----

  /** Both sides assign the same bucket to every packet. */
  ghost predicate Alike(h: Hashes, rows: seq<Row>, run: seq<Obs>) {
    Classify(h, run) == Offline.BucketsOf(h, Offline.Entries(Offline.LearnMap(rows), rows))
  }

  /** The lengths that the two sides use for packet `i` differ at most over zero bytes. */
  predicate LengthsFit(h: Hashes, rows: seq<Row>, run: seq<Obs>, i: nat)
    requires i < |run| && run[i].quic.Valid()
  {
    var online, offline := EffLen(h, run[..i], run[i]), OfflineLen(Offline.LearnMap(rows), run[i]);
    ZeroBetween(run[i].quic.Dcid(), Kept(online), Min(offline, 20))
  }

  /** The hash input of a packet on either side depends on the CRC-16 only, and fitting
      lengths are what makes the two equal. */
  lemma InputsAt(h: Hashes, crc32: Bytes -> nat, rows: seq<Row>, run: seq<Obs>, i: nat)
    requires Paired(rows, run) && i < |run|
    ensures Cid(WithCrc32(h, crc32), run[..i], run[i]) == Cid(h, run[..i], run[i])
    ensures var e := Offline.EntryOf(Offline.LearnMap(rows), rows[i]);
      e.Some? && (Pad20(e.value.dcid) == Pad20(Cid(h, run[..i], run[i])) <==> LengthsFit(h, rows, run, i))
  {
    History.LearnedIgnoresCrc32(h, crc32, run[..i], Key(h, run[i]));
    PacketAgreesExactly(h, run[..i], Offline.LearnMap(rows), rows[i], run[i]);
  }

  lemma FittingRunsAlike(h: Hashes, crc32: Bytes -> nat, rows: seq<Row>, run: seq<Obs>)
    requires Paired(rows, run) && forall i :: 0 <= i < |run| ==> LengthsFit(h, rows, run, i)
    ensures Alike(WithCrc32(h, crc32), rows, run)
  {
    var lens := Offline.LearnMap(rows);
    forall i | 0 <= i < |run| ensures AgreeAt(WithCrc32(h, crc32), lens, rows, run, i) {
      InputsAt(h, crc32, rows, run, i);
    }
    ListsAgree(WithCrc32(h, crc32), lens, rows, run);
  }

  /** Equal lists of buckets agree at every packet. */
  lemma AlikeAt(h: Hashes, rows: seq<Row>, run: seq<Obs>, i: nat)
    requires Alike(h, rows, run) && |rows| == |run| && i < |run|
    requires forall j :: 0 <= j < |rows| ==> Offline.EntryOf(Offline.LearnMap(rows), rows[j]).Some?
    ensures AgreeAt(h, Offline.LearnMap(rows), rows, run, i)
  {
    AllClassified(Offline.LearnMap(rows), rows);
    assert Classify(h, run)[i] == Offline.BucketsOf(h, Offline.Entries(Offline.LearnMap(rows), rows))[i];
  }

  lemma AllEntries(rows: seq<Row>, run: seq<Obs>)
    requires Paired(rows, run)
    ensures forall j :: 0 <= j < |rows| ==> Offline.EntryOf(Offline.LearnMap(rows), rows[j]).Some?
  {
    forall j | 0 <= j < |rows| ensures Offline.EntryOf(Offline.LearnMap(rows), rows[j]).Some? {
      OfflineInput(Offline.LearnMap(rows), rows[j], run[j]);
    }
  }

  /** Where the lengths do not fit, a CRC that marks the hash input of the switch sets the
      two sides apart. */
  lemma MisfitSeparates(h: Hashes, rows: seq<Row>, run: seq<Obs>, i: nat) returns (crc32: Bytes -> nat)
    requires Paired(rows, run) && i < |run| && !LengthsFit(h, rows, run, i)
    ensures !Alike(WithCrc32(h, crc32), rows, run)
  {
    var cid := Cid(h, run[..i], run[i]);
    crc32 := Marking(Pad20(cid));
    AllEntries(rows, run);
    InputsAt(h, crc32, rows, run, i);
    MarkingSeparates(h, cid, Offline.EntryOf(Offline.LearnMap(rows), rows[i]).value.dcid);
    if Alike(WithCrc32(h, crc32), rows, run) {
      AlikeAt(WithCrc32(h, crc32), rows, run, i);
    }
  }

  /** For every run and the rows paired with it, whatever its lengths, arms, order and key
      collisions: the two sides assign the same buckets under every CRC-32 exactly when, at
      each packet, the DCID bytes between their lengths are zero. */
  lemma RunAgreesExactly(h: Hashes, rows: seq<Row>, run: seq<Obs>)
    requires Paired(rows, run)
    ensures (forall crc32: Bytes -> nat :: Alike(WithCrc32(h, crc32), rows, run))
       <==> (forall i :: 0 <= i < |run| ==> LengthsFit(h, rows, run, i))
  {
    if forall i :: 0 <= i < |run| ==> LengthsFit(h, rows, run, i) {
      forall crc32: Bytes -> nat ensures Alike(WithCrc32(h, crc32), rows, run) {
        FittingRunsAlike(h, crc32, rows, run);
      }
    } else {
      var i :| 0 <= i < |run| && !LengthsFit(h, rows, run, i);
      var crc32 := MisfitSeparates(h, rows, run, i);
    }
  }

  /** The smallest failing family: a Short before its own Handshake. The switch hashes it
      with length 0, the offline tool with the length learned afterwards. */
  lemma EarlyShort(h: Hashes, rows: seq<Row>, short: Obs, hs: Obs)
    requires Paired(rows, [short, hs]) && short.quic.Short? && short.force == 0
    requires IsHandshake(hs.quic) && hs.tuple == short.tuple
    ensures LengthsFit(h, rows, [short, hs], 0) <==> ZeroBetween(short.quic.Dcid(), 0, Min(hs.quic.long.dcidLen, 20))
  {
    var run := [short, hs];
    LearnMapTaught(rows, run, short.tuple);
    assert hs in run;
    assert run[..0] == [];
  }

  // ---- counts ----

  /** What the switch hashes, packet by packet. */
  function SwitchInputs(h: Hashes, run: seq<Obs>): (s: seq<Bytes>)
    ensures |s| == |run|
  {
    seq(|run|, i requires 0 <= i < |run| => Pad20(Cid(h, run[..i], run[i])))
  }

  /** What the offline tool hashes, datagram by datagram. */
  function OfflineInputs(es: seq<Offline.Entry>): (s: seq<Bytes>)
    ensures |s| == |es|
  {
    seq(|es|, i requires 0 <= i < |es| => Pad20(es[i].dcid))
  }

  function HashAll(h: Hashes, inputs: seq<Bytes>): (s: seq<nat>)
    ensures |s| == |inputs|
  {
    seq(|inputs|, i requires 0 <= i < |inputs| => HashBucket(h, inputs[i]))
  }

  lemma HashAllSnoc(h: Hashes, s: seq<Bytes>, x: Bytes)
    ensures HashAll(h, s + [x]) == HashAll(h, s) + [HashBucket(h, x)]
  {
  }

  /** How many inputs fall into a bucket, from the multiset of inputs alone. */
  lemma {:induction false} HashDelete(h: Hashes, s: seq<Bytes>, j: nat)
    requires j < |s|
    ensures multiset(HashAll(h, s)) == multiset(HashAll(h, s[..j] + s[j + 1..])) + multiset{HashBucket(h, s[j])}
  {
    var t := HashAll(h, s);
    History.DropOne(t, j);
    assert HashAll(h, s[..j] + s[j + 1..]) == t[..j] + t[j + 1..];
  }

  lemma {:induction false} HashPermutes(h: Hashes, r: seq<Bytes>, s: seq<Bytes>)
    requires multiset(r) == multiset(s)
    ensures multiset(HashAll(h, r)) == multiset(HashAll(h, s))
    decreases |r|
  {
    if r == [] {
      assert |multiset(s)| == 0;
    } else {
      var n, last := |r| - 1, r[|r| - 1];
      History.Snoc(r);
      assert last in multiset(s);
      var j :| 0 <= j < |s| && s[j] == last;
      var t := s[..j] + s[j + 1..];
      History.DropOne(s, j);
      assert multiset(r[..n]) == multiset(r) - multiset{last};
      assert multiset(t) == multiset(s) - multiset{last};
      HashPermutes(h, r[..n], t);
      HashAllSnoc(h, r[..n], last);
      HashDelete(h, s, j);
    }
  }

  /** A marking CRC counts one input. */
  lemma {:induction false} MarkedCount(h: Hashes, x: Bytes, s: seq<Bytes>)
    ensures multiset(HashAll(WithCrc32(h, Marking(x)), s))[1] == multiset(s)[x]
  {
    if s != [] {
      var n := |s| - 1;
      MarkedCount(h, x, s[..n]);
      History.Snoc(s);
      HashAllSnoc(WithCrc32(h, Marking(x)), s[..n], s[n]);
    }
  }

  /** Both sides count the same number of packets in every bucket. */
  ghost predicate SameCounts(h: Hashes, rows: seq<Row>, run: seq<Obs>) {
    forall b: nat :: Tally(h, run, Hits(b)) == Get(Offline.AnalysisOf(h, rows).acc.bucketPkts, b)
  }

  /** The hash inputs do not depend on the CRC-32, the buckets are their hashes. */
  lemma CountsAreHashes(h: Hashes, crc32: Bytes -> nat, rows: seq<Row>, run: seq<Obs>, b: nat)
    ensures var g, es := WithCrc32(h, crc32), Offline.Entries(Offline.LearnMap(rows), rows);
      && Tally(g, run, Hits(b)) == multiset(HashAll(g, SwitchInputs(h, run)))[b]
      && Get(Offline.AnalysisOf(g, rows).acc.bucketPkts, b) == multiset(HashAll(g, OfflineInputs(es)))[b]
  {
    var g, es := WithCrc32(h, crc32), Offline.Entries(Offline.LearnMap(rows), rows);
    HitsAreOccurrences(g, run, b);
    forall i | 0 <= i < |run| ensures Classify(g, run)[i] == HashAll(g, SwitchInputs(h, run))[i] {
      History.LearnedIgnoresCrc32(h, crc32, run[..i], Key(h, run[i]));
    }
    assert Classify(g, run) == HashAll(g, SwitchInputs(h, run));
    assert Offline.BucketsOf(g, es) == HashAll(g, OfflineInputs(es));
  }

  /** The comparison of counts, for all rows and runs: the two sides count alike in every
      bucket under every CRC-32 exactly when they hash the same inputs equally often. */
  lemma CountsAgreeExactly(h: Hashes, rows: seq<Row>, run: seq<Obs>)
    ensures (forall crc32: Bytes -> nat :: SameCounts(WithCrc32(h, crc32), rows, run))
       <==> multiset(SwitchInputs(h, run)) == multiset(OfflineInputs(Offline.Entries(Offline.LearnMap(rows), rows)))
  {
    var s, t := SwitchInputs(h, run), OfflineInputs(Offline.Entries(Offline.LearnMap(rows), rows));
    if multiset(s) == multiset(t) {
      forall crc32: Bytes -> nat ensures SameCounts(WithCrc32(h, crc32), rows, run) {
        HashPermutes(WithCrc32(h, crc32), s, t);
        forall b: nat ensures Tally(WithCrc32(h, crc32), run, Hits(b))
                           == Get(Offline.AnalysisOf(WithCrc32(h, crc32), rows).acc.bucketPkts, b) {
          CountsAreHashes(h, crc32, rows, run, b);
        }
      }
    } else {
      var x :| multiset(s)[x] != multiset(t)[x];
      MarkedCount(h, x, s);
      MarkedCount(h, x, t);
      CountsAreHashes(h, Marking(x), rows, run, 1);
      assert !SameCounts(WithCrc32(h, Marking(x)), rows, run);
    }
  }
}
