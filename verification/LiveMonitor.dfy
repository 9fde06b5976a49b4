/** The live monitor: digests label counter indices with connections, polls of the counter
    become rates, and rates are grouped by connection. */
module LiveMonitor {
  import opened Wire
  import opened Bits
  import opened Mask
  import History
  import opened IngressParser
  import opened Runs
  import opened Switch
  import opened ControlPlane
  import opened Hex
  import opened Tables
  import opened Sums

  datatype Direction = Down | Up

  /** The client endpoint of a connection; Unidentified is the empty key. */
  datatype Client = Unidentified | Client(ip: Bytes, port: nat)

  /** What one digest says about its counter index. */
  datatype Label = Label(dcid: string, len: nat, dir: Direction, client: Client)

  function LabelOf(d: Digest): Label {
    var hex := DigestHex(Be(d.dcid), d.dcidLen);
    if d.tuple.sport == QUIC_PORT then Label(hex, d.dcidLen, Down, Client(d.tuple.dst, d.tuple.dport))
    else Label(hex, d.dcidLen, Up, Client(d.tuple.src, d.tuple.sport))
  }

  /** The client of a digest is the end that is not on port 443: the destination, downstream, if
      the source port is 443, and otherwise the source, upstream. The label shows the leading
      DCID bytes in hexadecimal. */
  lemma LabelNamesClient(f: Bytes)
    requires ParseSpec(f).Accepted?
    ensures var d := DigestOf(ParseSpec(f));
      && LabelOf(d).len == d.dcidLen
      && LabelOf(d).dcid == HexOf(Take(d.dcid, d.dcidLen))
      && if U16(f, 34) == 443 then LabelOf(d).dir == Down && LabelOf(d).client == Client(f[30..34], U16(f, 36))
         else LabelOf(d).dir == Up && LabelOf(d).client == Client(f[26..30], U16(f, 34))
  {
    var d := DigestOf(ParseSpec(f));
    DigestHexShows(d.dcid, d.dcidLen);
  }

  lemma DigestHexShows(dcid: Bytes, len: nat)
    requires |dcid| == PAD_LEN
    ensures DigestHex(Be(dcid), len) == HexOf(Take(dcid, len))
  {
    IntegerRendersAsBytes(dcid);
    HexPrefix(dcid, Min(len, 20));
  }

  function Reply(t: FourTuple): FourTuple {
    FourTuple(t.dst, t.src, t.dport, t.sport)
  }

  /** A packet and its reply, with one end on port 443, belong to the same client and have
      opposite directions. */
  lemma ReplySameClient(d: Digest, r: Digest)
    requires r.tuple == Reply(d.tuple) && (d.tuple.sport == 443 <==> d.tuple.dport != 443)
    ensures LabelOf(d).client == LabelOf(r).client && LabelOf(d).dir != LabelOf(r).dir
  {
  }

  /** The width of the index that the script uses. */
  const SCRIPT_BITS: nat := 10

  /** The counter index, `bits` wide, that a digest labels; a digest of length 0 is ignored. */
  function IndexOf(h: Hashes, bits: nat, d: Digest): Option<nat> {
    match MonitorBucket(h, Be(d.dcid), d.dcidLen)
    case None => None
    case Some(b) => Some(LowBits(b, bits))
  }

  /** The bucket's 15-bit slot is within reach of an index of `bits` bits. */
  predicate InReach(b: nat, bits: nat) {
    if bits <= 15 then b % 0x8000 < Pow2(bits) else LowBits(b, bits) < 0x8000
  }

  /** Exactly when a digest labels the slot that the counter uses for the recomputed bucket. */
  lemma LabelledSlot(h: Hashes, bits: nat, d: Digest, b: nat)
    requires MonitorBucket(h, Be(d.dcid), d.dcidLen) == Some(b)
    ensures IndexOf(h, bits, d) == Some(PacketCounter.IndexOf(b)) <==> InReach(b, bits)
    ensures InReach(b, SCRIPT_BITS) <==> b % 0x8000 < 0x400
  {
    Widths();
    if bits <= 15 {
      WidthsAgree(b, bits, 15);
    } else {
      WidthsAgree(b, 15, bits);
    }
  }

  /** The label of the digest of an accepted packet reaches the slot that the switch counted
      for it, if that slot is within the width at all. */
  predicate LabelReaches(h: Hashes, bits: nat, run: seq<Obs>, p: Parsed, o: Obs)
    requires p.Accepted?
  {
    var b := BucketOf(h, run, o);
    InReach(b, bits) ==> IndexOf(h, bits, DigestOf(p)) == Some(PacketCounter.IndexOf(b))
  }

  /** What the monitor hashes for a packet, against what the switch hashed. */
  lemma DigestInputs(h: Hashes, run: seq<Obs>, f: Bytes, force: nat)
    requires ParseSpec(f).Accepted? && ParseSpec(f).dcidLen > 0
    ensures var p := ParseSpec(f);
      var o := Obs(p.tuple, p.quic, force, |f|);
      var x := Take(p.quic.Dcid(), p.dcidLen);
      && MonitorInput(Be(DigestOf(p).dcid), DigestOf(p).dcidLen) == Some(Pad20(x))
      && (Pad20(x) == Pad20(Cid(h, run, o)) <==>
            ZeroBetween(p.quic.Dcid(), Kept(EffLen(h, run, o)), Min(p.dcidLen, 20)))
  {
    var p := ParseSpec(f);
    MonitorInputIsPadding(p.quic.Dcid(), p.dcidLen);
    DigestAgreesExactly(h, run, f, force);
  }

  lemma SameCid(h: Hashes, crc32: Bytes -> nat, run: seq<Obs>, o: Obs)
    ensures Cid(WithCrc32(h, crc32), run, o) == Cid(h, run, o)
  {
    History.LearnedIgnoresCrc32(h, crc32, run, Key(h, o));
  }

  /** Equal hash inputs: the label is the counted slot exactly when that slot is in reach. */
  lemma LabelByInput(h: Hashes, bits: nat, run: seq<Obs>, p: Parsed, o: Obs)
    requires p.Accepted?
    requires MonitorInput(Be(DigestOf(p).dcid), DigestOf(p).dcidLen) == Some(Pad20(Cid(h, run, o)))
    ensures var b := BucketOf(h, run, o);
      IndexOf(h, bits, DigestOf(p)) == Some(PacketCounter.IndexOf(b)) <==> InReach(b, bits)
  {
    LabelledSlot(h, bits, DigestOf(p), BucketOf(h, run, o));
  }

  lemma LowOne(bits: nat)
    requires bits > 0
    ensures InReach(1, bits) && PacketCounter.IndexOf(1) == 1 && LowBits(0, bits) == 0
  {
    assert Pow2(bits) == 2 * Pow2(bits - 1);
    DivMod(0, Pow2(bits), 1);
    DivMod(0, Pow2(bits), 0);
  }

  /** Different hash inputs: a CRC-32 that marks the switch's sends the label astray. */
  lemma LabelAstray(h: Hashes, bits: nat, run: seq<Obs>, p: Parsed, o: Obs, x: Bytes)
    requires p.Accepted? && bits > 0
    requires MonitorInput(Be(DigestOf(p).dcid), DigestOf(p).dcidLen) == Some(Pad20(x))
    requires Pad20(x) != Pad20(Cid(h, run, o))
    ensures !LabelReaches(WithCrc32(h, Marking(Pad20(Cid(h, run, o)))), bits, run, p, o)
  {
    var g := WithCrc32(h, Marking(Pad20(Cid(h, run, o))));
    SameCid(h, Marking(Pad20(Cid(h, run, o))), run, o);
    MarkingSeparates(h, Cid(h, run, o), x);
    assert MonitorBucket(g, Be(DigestOf(p).dcid), DigestOf(p).dcidLen) == Some(CidBucket(g, x));
    LowOne(bits);
  }

  /** From the switch to the label, for every packet, arm, history and width: under every
      CRC-32 the digest of the packet labels the slot that the switch counted, provided the
      slot is within the width, exactly when the DCID bytes between effective length and digest
      length are zero; and then it labels that slot only if it is within the width. */
  lemma LabelIsCountedSlot(h: Hashes, bits: nat, run: seq<Obs>, f: Bytes, force: nat)
    requires bits > 0 && ParseSpec(f).Accepted? && ParseSpec(f).dcidLen > 0
    ensures var p := ParseSpec(f);
      var o := Obs(p.tuple, p.quic, force, |f|);
      var fits := ZeroBetween(p.quic.Dcid(), Kept(EffLen(h, run, o)), Min(p.dcidLen, 20));
      && ((forall crc32: Bytes -> nat :: LabelReaches(WithCrc32(h, crc32), bits, run, p, o)) <==> fits)
      && (fits ==>
            var b := BucketOf(h, run, o);
            IndexOf(h, bits, DigestOf(p)) == Some(PacketCounter.IndexOf(b)) <==> InReach(b, bits))
  {
    var p := ParseSpec(f);
    var o := Obs(p.tuple, p.quic, force, |f|);
    DigestInputs(h, run, f, force);
    if ZeroBetween(p.quic.Dcid(), Kept(EffLen(h, run, o)), Min(p.dcidLen, 20)) {
      LabelByInput(h, bits, run, p, o);
      forall crc32: Bytes -> nat ensures LabelReaches(WithCrc32(h, crc32), bits, run, p, o) {
        SameCid(h, crc32, run, o);
        LabelByInput(WithCrc32(h, crc32), bits, run, p, o);
      }
    } else {
      LabelAstray(h, bits, run, p, o, Take(p.quic.Dcid(), p.dcidLen));
    }
  }

  /** A packet's digest labels nothing exactly when its length field is 0, which only a Long
      header can carry. */
  lemma ZeroLengthUnlabelled(h: Hashes, bits: nat, f: Bytes)
    requires ParseSpec(f).Accepted?
    ensures IndexOf(h, bits, DigestOf(ParseSpec(f))) == None <==>
      ParseSpec(f).quic.Long? && ParseSpec(f).quic.long.dcidLen == 0
  {
  }

  /** One digest as the callback understands it; without an index it is ignored. */
  datatype Note = Note(index: Option<nat>, content: Label)

  function NoteOf(h: Hashes, bits: nat, d: Digest): Note {
    Note(IndexOf(h, bits, d), LabelOf(d))
  }

  function NotesOf(h: Hashes, bits: nat, msg: seq<Digest>): (s: seq<Note>)
    ensures |s| == |msg| && Narrow(s, bits)
  {
    seq(|msg|, i requires 0 <= i < |msg| => NoteOf(h, bits, msg[i]))
  }

  /** All indices are `bits` wide. */
  predicate Narrow(notes: seq<Note>, bits: nat) {
    forall i :: 0 <= i < |notes| && notes[i].index.Some? ==> notes[i].index.value < Pow2(bits)
  }

  /** The latest label of every counter index. */
  function Labels(notes: seq<Note>): map<nat, Label> {
    if notes == [] then map[] else Relabel(Labels(notes[..|notes| - 1]), notes[|notes| - 1])
  }

  function Relabel(t: map<nat, Label>, n: Note): map<nat, Label> {
    match n.index
    case None => t
    case Some(i) => t[i := n.content]
  }

  /** Note `j` is the latest one for index `i`. */
  predicate IsLatestNote(notes: seq<Note>, i: nat, j: int) {
    0 <= j < |notes| && notes[j].index == Some(i) && forall k :: j < k < |notes| ==> notes[k].index != Some(i)
  }

  lemma LatestNoteSnoc(notes: seq<Note>, i: nat, j: int)
    requires notes != []
    ensures var n := |notes| - 1;
      IsLatestNote(notes, i, j) <==> if notes[n].index == Some(i) then j == n else IsLatestNote(notes[..n], i, j)
  {
  }

  /** An index is labelled exactly when some digest named it, with the content of the latest
      one. */
  lemma {:induction false} LabelsAreLatest(notes: seq<Note>, i: nat)
    ensures i in Labels(notes) <==> exists j :: IsLatestNote(notes, i, j)
    ensures forall j :: IsLatestNote(notes, i, j) ==> Labels(notes)[i] == notes[j].content
  {
    if notes != [] {
      var n := |notes| - 1;
      LabelsAreLatest(notes[..n], i);
      forall j ensures IsLatestNote(notes, i, j) <==>
        if notes[n].index == Some(i) then j == n else IsLatestNote(notes[..n], i, j)
      {
        LatestNoteSnoc(notes, i, j);
      }
      if notes[n].index == Some(i) {
        assert IsLatestNote(notes, i, n);
      }
    }
  }

  /** No digest ever labels a slot beyond the width of the index. */
  lemma HighSlotsUnlabelled(notes: seq<Note>, bits: nat, i: nat)
    requires Narrow(notes, bits) && i >= Pow2(bits)
    ensures i !in Labels(notes)
  {
    LabelsAreLatest(notes, i);
  }

  // ---- polls ----

  datatype Reading = Reading(pkts: nat, bytes: nat)

  type Snapshot = map<nat, Reading>

  /** The last value read for an index, or zero. The first poll is the warm-up; a failed read
      is an empty snapshot. */
  function Latest(polls: seq<Snapshot>, i: nat): Reading {
    if polls == [] then Reading(0, 0)
    else if i in polls[|polls| - 1] then polls[|polls| - 1][i]
    else Latest(polls[..|polls| - 1], i)
  }

  function DeltaPkts(before: Reading, now: Reading): int {
    now.pkts - before.pkts
  }

  function DeltaBytes(before: Reading, now: Reading): int {
    now.bytes - before.bytes
  }

  /** The sum of the packet and byte deltas that the monitor has computed for an index after
      the warm-up. */
  function DeltaSum(polls: seq<Snapshot>, i: nat): (int, int) {
    if |polls| <= 1 then (0, 0)
    else
      var n := |polls| - 1;
      var sum := DeltaSum(polls[..n], i);
      if i in polls[n] then
        (sum.0 + DeltaPkts(Latest(polls[..n], i), polls[n][i]), sum.1 + DeltaBytes(Latest(polls[..n], i), polls[n][i]))
      else sum
  }

  /** Poll conservation: over any polls, failed ones included, the deltas of an index add up
      to its last value minus its warm-up value. */
  lemma {:induction false} DeltasTelescope(polls: seq<Snapshot>, i: nat)
    requires polls != []
    ensures DeltaSum(polls, i).0 == DeltaPkts(Latest(polls[..1], i), Latest(polls, i))
    ensures DeltaSum(polls, i).1 == DeltaBytes(Latest(polls[..1], i), Latest(polls, i))
  {
    if |polls| == 1 {
      assert polls[..1] == polls;
    } else {
      var n := |polls| - 1;
      DeltasTelescope(polls[..n], i);
      assert polls[..n][..1] == polls[..1];
    }
  }

  // ---- grouping ----

  datatype Stat = Stat(pkts: nat, pktRate: real, mbps: real)

  /** Rates of one connection: down and up, packets and megabits. */
  datatype Rates = Rates(dnPkt: real, dnMbps: real, upPkt: real, upMbps: real)

  const NO_RATES := Rates(0.0, 0.0, 0.0, 0.0)

  function PktRates(v: map<nat, Stat>): map<nat, real> {
    map i | i in v :: v[i].pktRate
  }

  function MbpsRates(v: map<nat, Stat>): map<nat, real> {
    map i | i in v :: v[i].mbps
  }

  function RatesOf(conn: map<Client, Rates>, c: Client): Rates {
    if c in conn then conn[c] else NO_RATES
  }

  function ConnPkt(conn: map<Client, Rates>): map<Client, real> {
    map c | c in conn :: conn[c].dnPkt + conn[c].upPkt
  }

  function ConnMbps(conn: map<Client, Rates>): map<Client, real> {
    map c | c in conn :: conn[c].dnMbps + conn[c].upMbps
  }

  /** The indices among `keys` that are labelled with a client and a direction. */
  function Members(labels: map<nat, Label>, keys: set<nat>, c: Client, d: Direction): set<nat> {
    set i | i in keys && i in labels && labels[i].client == c && labels[i].dir == d
  }

  function Unlabelled(labels: map<nat, Label>, keys: set<nat>): set<nat> {
    set i | i in keys && i !in labels
  }

  /** The rates of the indices of one connection, by direction. */
  ghost function MemberRates(labels: map<nat, Label>, v: map<nat, Stat>, keys: set<nat>, c: Client): Rates {
    var dn, up := Members(labels, keys, c, Down), Members(labels, keys, c, Up);
    Rates(RealSum(dn, PktRates(v)), RealSum(dn, MbpsRates(v)), RealSum(up, PktRates(v)), RealSum(up, MbpsRates(v)))
  }

  /** Every connection has exactly the rates of its indices. */
  ghost predicate Grouped(labels: map<nat, Label>, v: map<nat, Stat>, keys: set<nat>, conn: map<Client, Rates>) {
    forall c :: RatesOf(conn, c) == MemberRates(labels, v, keys, c)
  }

  /** No rate is lost: connections and pending add up to all of `keys`. */
  ghost predicate Conserved(v: map<nat, Stat>, keys: set<nat>, conn: map<Client, Rates>,
                            pendingPkt: real, pendingMbps: real)
  {
    && RealSum(conn.Keys, ConnPkt(conn)) + pendingPkt == RealSum(keys, PktRates(v))
    && RealSum(conn.Keys, ConnMbps(conn)) + pendingMbps == RealSum(keys, MbpsRates(v))
  }

  function AddRate(r: Rates, d: Direction, s: Stat): Rates {
    match d
    case Down => r.(dnPkt := r.dnPkt + s.pktRate, dnMbps := r.dnMbps + s.mbps)
    case Up => r.(upPkt := r.upPkt + s.pktRate, upMbps := r.upMbps + s.mbps)
  }

  lemma MembersStep(labels: map<nat, Label>, keys: set<nat>, i: nat, c: Client, d: Direction)
    ensures Members(labels, keys + {i}, c, d) ==
      if i in labels && labels[i].client == c && labels[i].dir == d then Members(labels, keys, c, d) + {i}
      else Members(labels, keys, c, d)
  {
  }

  lemma GroupedStep(labels: map<nat, Label>, v: map<nat, Stat>, keys: set<nat>, conn: map<Client, Rates>, i: nat)
    requires Grouped(labels, v, keys, conn) && i !in keys && i in v && i in labels
    ensures var l := labels[i];
      Grouped(labels, v, keys + {i}, conn[l.client := AddRate(RatesOf(conn, l.client), l.dir, v[i])])
  {
    var l := labels[i];
    var conn' := conn[l.client := AddRate(RatesOf(conn, l.client), l.dir, v[i])];
    forall c ensures RatesOf(conn', c) == MemberRates(labels, v, keys + {i}, c) {
      assert RatesOf(conn, c) == MemberRates(labels, v, keys, c);
      MembersStep(labels, keys, i, c, Down);
      MembersStep(labels, keys, i, c, Up);
      RealSumAdd(Members(labels, keys, c, l.dir), PktRates(v), i);
      RealSumAdd(Members(labels, keys, c, l.dir), MbpsRates(v), i);
    }
  }

  lemma ConnPktUpdate(conn: map<Client, Rates>, c: Client, r: Rates)
    ensures var s, conn' := RatesOf(conn, c), conn[c := r];
      RealSum(conn'.Keys, ConnPkt(conn'))
      == RealSum(conn.Keys, ConnPkt(conn)) - (s.dnPkt + s.upPkt) + (r.dnPkt + r.upPkt)
  {
    var m, n := ConnPkt(conn), ConnPkt(conn[c := r]);
    RealSumUpdate(m, c, r.dnPkt + r.upPkt);
    assert n == m[c := r.dnPkt + r.upPkt];
    assert m.Keys == conn.Keys && n.Keys == conn[c := r].Keys;
  }

  lemma ConnMbpsUpdate(conn: map<Client, Rates>, c: Client, r: Rates)
    ensures var s, conn' := RatesOf(conn, c), conn[c := r];
      RealSum(conn'.Keys, ConnMbps(conn'))
      == RealSum(conn.Keys, ConnMbps(conn)) - (s.dnMbps + s.upMbps) + (r.dnMbps + r.upMbps)
  {
    var m, n := ConnMbps(conn), ConnMbps(conn[c := r]);
    RealSumUpdate(m, c, r.dnMbps + r.upMbps);
    assert n == m[c := r.dnMbps + r.upMbps];
    assert m.Keys == conn.Keys && n.Keys == conn[c := r].Keys;
  }

  lemma ConservedStep(v: map<nat, Stat>, keys: set<nat>, conn: map<Client, Rates>, i: nat, l: Label, p: real, q: real)
    requires Conserved(v, keys, conn, p, q) && i !in keys && i in v
    ensures Conserved(v, keys + {i}, conn[l.client := AddRate(RatesOf(conn, l.client), l.dir, v[i])], p, q)
  {
    RealSumAdd(keys, PktRates(v), i);
    RealSumAdd(keys, MbpsRates(v), i);
    ConnPktUpdate(conn, l.client, AddRate(RatesOf(conn, l.client), l.dir, v[i]));
    ConnMbpsUpdate(conn, l.client, AddRate(RatesOf(conn, l.client), l.dir, v[i]));
  }

  /** Group the visible rates by connection. */
  method Group(labels: map<nat, Label>, v: map<nat, Stat>)
    returns (conn: map<Client, Rates>, pendingPkt: real, pendingMbps: real)
    ensures Grouped(labels, v, v.Keys, conn)
    ensures Conserved(v, v.Keys, conn, pendingPkt, pendingMbps)
    ensures pendingPkt == RealSum(Unlabelled(labels, v.Keys), PktRates(v))
    ensures pendingMbps == RealSum(Unlabelled(labels, v.Keys), MbpsRates(v))
  {
    conn, pendingPkt, pendingMbps := map[], 0.0, 0.0;
    var rest := v.Keys;
    ghost var done: set<nat> := {};
    NothingGrouped(labels, v);
    while rest != {}
      invariant rest <= v.Keys && done == v.Keys - rest
      invariant Grouped(labels, v, done, conn)
      invariant Conserved(v, done, conn, pendingPkt, pendingMbps)
      invariant pendingPkt == RealSum(Unlabelled(labels, done), PktRates(v))
      invariant pendingMbps == RealSum(Unlabelled(labels, done), MbpsRates(v))
      decreases rest
    {
      var i :| i in rest;
      if i !in labels {
        PendingStep(labels, v, done, conn, i, pendingPkt, pendingMbps);
        pendingPkt, pendingMbps := pendingPkt + v[i].pktRate, pendingMbps + v[i].mbps;
      } else {
        var l := labels[i];
        GroupedStep(labels, v, done, conn, i);
        ConservedStep(v, done, conn, i, l, pendingPkt, pendingMbps);
        assert Unlabelled(labels, done + {i}) == Unlabelled(labels, done);
        conn := conn[l.client := AddRate(RatesOf(conn, l.client), l.dir, v[i])];
      }
      rest := rest - {i};
      done := done + {i};
    }
    assert done == v.Keys;
  }

  lemma NothingGrouped(labels: map<nat, Label>, v: map<nat, Stat>)
    ensures Grouped(labels, v, {}, map[]) && Conserved(v, {}, map[], 0.0, 0.0) && Unlabelled(labels, {}) == {}
  {
    forall c, d ensures Members(labels, {}, c, d) == {} {
    }
  }

  lemma PendingStep(labels: map<nat, Label>, v: map<nat, Stat>, keys: set<nat>, conn: map<Client, Rates>, i: nat,
                    p: real, q: real)
    requires i !in keys && i in v && i !in labels
    requires Grouped(labels, v, keys, conn) && Conserved(v, keys, conn, p, q)
    requires p == RealSum(Unlabelled(labels, keys), PktRates(v)) && q == RealSum(Unlabelled(labels, keys), MbpsRates(v))
    ensures Grouped(labels, v, keys + {i}, conn) && Conserved(v, keys + {i}, conn, p + v[i].pktRate, q + v[i].mbps)
    ensures p + v[i].pktRate == RealSum(Unlabelled(labels, keys + {i}), PktRates(v))
    ensures q + v[i].mbps == RealSum(Unlabelled(labels, keys + {i}), MbpsRates(v))
  {
    RealSumAdd(keys, PktRates(v), i);
    RealSumAdd(keys, MbpsRates(v), i);
    RealSumAdd(Unlabelled(labels, keys), PktRates(v), i);
    RealSumAdd(Unlabelled(labels, keys), MbpsRates(v), i);
    assert Unlabelled(labels, keys + {i}) == Unlabelled(labels, keys) + {i};
    forall c, d ensures Members(labels, keys + {i}, c, d) == Members(labels, keys, c, d) {
      MembersStep(labels, keys, i, c, d);
    }
  }

  // ---- the monitor's dictionaries ----

  const INACTIVITY_TIMEOUT := 10.0

  function PktRate(d: int, dt: real): real {
    if dt > 0.0 then d as real / dt else 0.0
  }

  function Mbps(d: int, dt: real): real {
    if dt > 0.0 then (d * 8) as real / (dt * 1000000.0) else 0.0
  }

  /** Rate times interval is what was counted: packets, and megabits of 10^6 bits; without a
      positive interval there is no rate. */
  lemma RatesMean(d: int, dt: real)
    ensures dt > 0.0 ==> PktRate(d, dt) * dt == d as real && Mbps(d, dt) * dt * 1000000.0 == 8.0 * d as real
    ensures dt <= 0.0 ==> PktRate(d, dt) == 0.0 && Mbps(d, dt) == 0.0
  {
    if dt > 0.0 {
      Quotient(d as real, dt);
      Quotient((d * 8) as real, dt * 1000000.0);
      assert Mbps(d, dt) * dt * 1000000.0 == Mbps(d, dt) * (dt * 1000000.0);
    }
  }

  /** The figures of an index: its packet count, and over the interval the packets and bytes
      that it gained since it was last read. */
  lemma StatMeans(polls: seq<Snapshot>, counts: Snapshot, dt: real, i: nat)
    requires i in counts && dt > 0.0
    ensures var s, before := StatOf(polls, counts, dt, i), Latest(polls, i);
      && s.pkts == counts[i].pkts
      && s.pktRate * dt == (counts[i].pkts - before.pkts) as real
      && s.mbps * dt * 1000000.0 == 8.0 * (counts[i].bytes - before.bytes) as real
  {
    RatesMean(counts[i].pkts - Latest(polls, i).pkts, dt);
    RatesMean(counts[i].bytes - Latest(polls, i).bytes, dt);
  }

  lemma Quotient(x: real, y: real)
    requires y > 0.0
    ensures x / y * y == x
  {
  }

  /** The previous-value dictionaries hold what the last poll that saw an index read; the
      indices in `todo` have not been updated from `counts` yet. */
  ghost predicate Tracks(pkts: map<nat, nat>, bytes: map<nat, nat>, polls: seq<Snapshot>, counts: Snapshot,
                         todo: set<nat>)
  {
    forall i ::
      && Get(pkts, i) == (if i in counts && i !in todo then counts[i] else Latest(polls, i)).pkts
      && Get(bytes, i) == (if i in counts && i !in todo then counts[i] else Latest(polls, i)).bytes
  }

  /** An index moved since it was last read. */
  predicate Moved(polls: seq<Snapshot>, counts: Snapshot, i: nat) {
    i in counts && (DeltaPkts(Latest(polls, i), counts[i]) > 0 || DeltaBytes(Latest(polls, i), counts[i]) > 0)
  }

  /** Activity is a rise of the packets or of the bytes above the last values read. */
  lemma MovedMeans(polls: seq<Snapshot>, counts: Snapshot, i: nat)
    ensures Moved(polls, counts, i) <==>
      i in counts && !(counts[i].pkts <= Latest(polls, i).pkts && counts[i].bytes <= Latest(polls, i).bytes)
  {
  }

  function StatOf(polls: seq<Snapshot>, counts: Snapshot, dt: real, i: nat): Stat
    requires i in counts
  {
    var before := Latest(polls, i);
    Stat(counts[i].pkts, PktRate(DeltaPkts(before, counts[i]), dt), Mbps(DeltaBytes(before, counts[i]), dt))
  }

  /** The activity times after a poll at `now`, for the indices outside `todo`. */
  ghost predicate Stamped(before: map<nat, real>, after: map<nat, real>, polls: seq<Snapshot>, counts: Snapshot,
                          now: real, todo: set<nat>)
  {
    forall i ::
      && (i in after <==> i in before || (Moved(polls, counts, i) && i !in todo))
      && (i in after ==> after[i] == if Moved(polls, counts, i) && i !in todo then now else before[i])
  }

  lemma TracksStep(pkts: map<nat, nat>, bytes: map<nat, nat>, polls: seq<Snapshot>, counts: Snapshot,
                   todo: set<nat>, i: nat)
    requires Tracks(pkts, bytes, polls, counts, todo) && i in todo && i in counts
    ensures Get(pkts, i) == Latest(polls, i).pkts && Get(bytes, i) == Latest(polls, i).bytes
    ensures Tracks(pkts[i := counts[i].pkts], bytes[i := counts[i].bytes], polls, counts, todo - {i})
  {
  }

  lemma StampedStep(before: map<nat, real>, after: map<nat, real>, polls: seq<Snapshot>, counts: Snapshot,
                    now: real, todo: set<nat>, i: nat)
    requires Stamped(before, after, polls, counts, now, todo) && i in todo
    ensures Stamped(before, if Moved(polls, counts, i) then after[i := now] else after, polls, counts, now, todo - {i})
  {
  }

  /** Exactly the indices in `done` have their rates. */
  ghost predicate Rated(stats: map<nat, Stat>, polls: seq<Snapshot>, counts: Snapshot, dt: real, done: set<nat>) {
    stats.Keys == done && done <= counts.Keys && forall i :: i in done ==> stats[i] == StatOf(polls, counts, dt, i)
  }

  lemma TracksPoll(pkts: map<nat, nat>, bytes: map<nat, nat>, polls: seq<Snapshot>, counts: Snapshot)
    requires Tracks(pkts, bytes, polls, counts, {})
    ensures Tracks(pkts, bytes, polls + [counts], map[], {})
  {
    assert (polls + [counts])[..|polls|] == polls;
  }

  /** The entries of a label table, spread over four dictionaries. */
  ghost predicate Spread(t: map<nat, Label>, dcid: map<nat, string>, len: map<nat, nat>,
                         dir: map<nat, Direction>, client: map<nat, Client>)
  {
    && dcid.Keys == t.Keys && len.Keys == t.Keys && dir.Keys == t.Keys && client.Keys == t.Keys
    && forall i :: i in t ==> t[i] == Label(dcid[i], len[i], dir[i], client[i])
  }

  lemma SpreadStep(t: map<nat, Label>, dcid: map<nat, string>, len: map<nat, nat>,
                   dir: map<nat, Direction>, client: map<nat, Client>, i: nat, l: Label)
    requires Spread(t, dcid, len, dir, client)
    ensures Spread(t[i := l], dcid[i := l.dcid], len[i := l.len], dir[i := l.dir], client[i := l.client])
  {
  }

  lemma LabelsSnoc(notes: seq<Note>, n: Note)
    ensures Labels(notes + [n]) == Relabel(Labels(notes), n)
  {
    assert (notes + [n])[..|notes|] == notes;
  }

  class Monitor {
    const h: Hashes
    const bits: nat
    var ctrDcid: map<nat, string>
    var ctrLen: map<nat, nat>
    var bucketDir: map<nat, Direction>
    var bucketCkey: map<nat, Client>
    var prevPkts: map<nat, nat>
    var prevBytes: map<nat, nat>
    var lastActive: map<nat, real>
    ghost var notes: seq<Note>
    ghost var polls: seq<Snapshot>

    /** The four label dictionaries always describe the same digest, the latest one for the
        index, and the previous-value dictionaries hold the last value read. */
    ghost predicate Valid()
      reads this
    {
      && Spread(Labels(notes), ctrDcid, ctrLen, bucketDir, bucketCkey)
      && Narrow(notes, bits)
      && Tracks(prevPkts, prevBytes, polls, map[], {})
    }

    /** Start up: no digests yet, and one warm-up read. */
    constructor (h: Hashes, bits: nat, warmUp: Snapshot)
      ensures Valid() && this.h == h && this.bits == bits && notes == [] && polls == [warmUp] && lastActive == map[]
    {
      this.h, this.bits := h, bits;
      ctrDcid, ctrLen, bucketDir, bucketCkey := map[], map[], map[], map[];
      prevPkts := map i | i in warmUp :: warmUp[i].pkts;
      prevBytes := map i | i in warmUp :: warmUp[i].bytes;
      lastActive := map[];
      notes, polls := [], [warmUp];
    }

    /** The digest callback. */
    method OnDigest(msg: seq<Digest>)
      requires Valid()
      modifies this`ctrDcid, this`ctrLen, this`bucketDir, this`bucketCkey, this`notes
      ensures Valid() && notes == old(notes) + NotesOf(h, bits, msg)
    {
      AttachAll(NotesOf(h, bits, msg));
    }

    method AttachAll(all: seq<Note>)
      requires Spread(Labels(notes), ctrDcid, ctrLen, bucketDir, bucketCkey)
      modifies this`ctrDcid, this`ctrLen, this`bucketDir, this`bucketCkey, this`notes
      ensures Spread(Labels(notes), ctrDcid, ctrLen, bucketDir, bucketCkey)
      ensures notes == old(notes) + all
    {
      for n := 0 to |all|
        invariant Spread(Labels(notes), ctrDcid, ctrLen, bucketDir, bucketCkey)
        invariant notes == old(notes) + all[..n]
      {
        Attach(all[n]);
        assert all[..n + 1] == all[..n] + [all[n]];
      }
      assert all[..|all|] == all;
    }

    method Attach(n: Note)
      requires Spread(Labels(notes), ctrDcid, ctrLen, bucketDir, bucketCkey)
      modifies this`ctrDcid, this`ctrLen, this`bucketDir, this`bucketCkey, this`notes
      ensures Spread(Labels(notes), ctrDcid, ctrLen, bucketDir, bucketCkey)
      ensures notes == old(notes) + [n]
    {
      LabelsSnoc(notes, n);
      if n.index.Some? {
        var i, l := n.index.value, n.content;
        SpreadStep(Labels(notes), ctrDcid, ctrLen, bucketDir, bucketCkey, i, l);
        ctrDcid, ctrLen := ctrDcid[i := l.dcid], ctrLen[i := l.len];
        bucketDir, bucketCkey := bucketDir[i := l.dir], bucketCkey[i := l.client];
      }
      notes := notes + [n];
    }

    /** One index of a poll: the deltas against the previous values, as rates. */
    method MeasureIndex(i: nat, now: real, dt: real, c: Reading, ghost counts: Snapshot, ghost todo: set<nat>,
                        ghost before: map<nat, real>) returns (stat: Stat)
      requires i in counts && counts[i] == c && i in todo
      requires Tracks(prevPkts, prevBytes, polls, counts, todo)
      requires Stamped(before, lastActive, polls, counts, now, todo)
      modifies this`prevPkts, this`prevBytes, this`lastActive
      ensures Tracks(prevPkts, prevBytes, polls, counts, todo - {i})
      ensures Stamped(before, lastActive, polls, counts, now, todo - {i})
      ensures stat == StatOf(polls, counts, dt, i)
    {
      TracksStep(prevPkts, prevBytes, polls, counts, todo, i);
      StampedStep(before, lastActive, polls, counts, now, todo, i);
      var dPkts := c.pkts - Get(prevPkts, i);
      var dBytes := c.bytes - Get(prevBytes, i);
      prevPkts, prevBytes := prevPkts[i := c.pkts], prevBytes[i := c.bytes];
      if dPkts > 0 || dBytes > 0 {
        lastActive := lastActive[i := now];
      }
      stat := Stat(c.pkts, PktRate(dPkts, dt), Mbps(dBytes, dt));
    }

    /** One poll of the whole counter. */
    method Measure(now: real, dt: real, counts: Snapshot) returns (stats: map<nat, Stat>)
      requires Valid()
      modifies this`prevPkts, this`prevBytes, this`lastActive, this`polls
      ensures Valid() && polls == old(polls) + [counts]
      ensures Rated(stats, old(polls), counts, dt, counts.Keys)
      ensures Stamped(old(lastActive), lastActive, old(polls), counts, now, {})
    {
      stats := map[];
      var rest := counts.Keys;
      while rest != {}
        invariant rest <= counts.Keys && polls == old(polls)
        invariant Rated(stats, polls, counts, dt, counts.Keys - rest)
        invariant Tracks(prevPkts, prevBytes, polls, counts, rest)
        invariant Stamped(old(lastActive), lastActive, polls, counts, now, rest)
        decreases rest
      {
        var i :| i in rest;
        var stat := MeasureIndex(i, now, dt, counts[i], counts, rest, old(lastActive));
        stats := stats[i := stat];
        rest := rest - {i};
      }
      TracksPoll(prevPkts, prevBytes, polls, counts);
      polls := polls + [counts];
    }

    /** The indices that moved within the timeout. */
    function Visible(stats: map<nat, Stat>, now: real): map<nat, Stat>
      reads this
    {
      map i | i in stats && i in lastActive && now - lastActive[i] < INACTIVITY_TIMEOUT :: stats[i]
    }

    /** The label table that the four dictionaries represent. */
    function Table(): (t: map<nat, Label>)
      requires Valid()
      reads this
      ensures t == Labels(notes)
    {
      map i | i in ctrDcid :: Label(ctrDcid[i], ctrLen[i], bucketDir[i], bucketCkey[i])
    }

    /** One turn of the poll loop: the visible rates, each under the latest label of its
        index, grouped without loss. Pending are the rates of the unlabelled indices, among
        them always every slot beyond the width of the monitor's index. */
    method Poll(now: real, dt: real, counts: Snapshot)
      returns (visible: map<nat, Stat>, conn: map<Client, Rates>, pendingPkt: real, pendingMbps: real)
      requires Valid()
      modifies this`prevPkts, this`prevBytes, this`lastActive, this`polls
      ensures Valid() && polls == old(polls) + [counts]
      ensures Stamped(old(lastActive), lastActive, old(polls), counts, now, {})
      ensures Rated(visible, old(polls), counts, dt,
                    set i | i in counts && i in lastActive && now - lastActive[i] < 10.0)
      ensures Grouped(Labels(notes), visible, visible.Keys, conn)
      ensures Conserved(visible, visible.Keys, conn, pendingPkt, pendingMbps)
      ensures pendingPkt == RealSum(Unlabelled(Labels(notes), visible.Keys), PktRates(visible))
      ensures pendingMbps == RealSum(Unlabelled(Labels(notes), visible.Keys), MbpsRates(visible))
      ensures forall i :: i in visible && i >= Pow2(bits) ==> i in Unlabelled(Labels(notes), visible.Keys)
    {
      var stats := Measure(now, dt, counts);
      visible := Visible(stats, now);
      conn, pendingPkt, pendingMbps := Group(Table(), visible);
      forall i | i in visible && i >= Pow2(bits) ensures i in Unlabelled(Labels(notes), visible.Keys) {
        HighSlotsUnlabelled(notes, bits, i);
      }
    }
  }
}
