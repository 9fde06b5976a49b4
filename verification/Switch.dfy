/** The ingress control with its stateful arrays, proved against the packet history. */
module Switch {
  import opened Wire
  import opened Mask
  import opened IngressParser
  import opened Runs

  /** The quic_digest_t record sent to the control plane. */
  datatype Digest = Digest(tuple: FourTuple, firstByte: bv8, dcidLen: nat, version: Bytes, dcid: Bytes)

  function Version(q: Quic): Bytes {
    match q
    case Long(l) => l.version
    case Short(_) => Zeros(4)
  }

  function DigestOf(p: Parsed): Digest
    requires p.Accepted?
  {
    Digest(p.tuple, FirstByte(p.quic), p.dcidLen, Version(p.quic), p.quic.Dcid())
  }

  /** The fields of a digest are bytes of the frame; a Short header has no version and is sent
      with length 20. */
  lemma DigestFields(f: Bytes)
    requires ParseSpec(f).Accepted?
    ensures var d := DigestOf(ParseSpec(f));
      && d.tuple == FourTuple(f[26..30], f[30..34], U16(f, 34), U16(f, 36))
      && d.firstByte == f[42]
      && (IsLongByte(f[42]) ==> d.dcidLen == f[47] as int && d.version == f[43..47] && d.dcid == f[48..68])
      && (!IsLongByte(f[42]) ==> d.dcidLen == 20 && d.version == [0, 0, 0, 0] && d.dcid == f[43..63])
  {
    FirstByteRestored(f);
  }

  /** What the history gains from one frame: nothing unless the parser found QUIC. */
  function Seen(f: Bytes, force: nat): seq<Obs> {
    match ParseSpec(f)
    case Accepted(t, q, _) => [Obs(t, q, force, |f|)]
    case _ => []
  }

  /** The digest that a frame raises, if any. */
  function DigestFor(h: Hashes, run: seq<Obs>, f: Bytes, force: nat): Option<Digest> {
    var p := ParseSpec(f);
    if p.Accepted? && RaisesDigest(h, run, Obs(p.tuple, p.quic, force, |f|)) then Some(DigestOf(p)) else None
  }

  // ---- what each array must hold after a run ----

  ghost predicate LensMatch(h: Hashes, run: seq<Obs>, lens: seq<nat>) {
    |lens| == KEYS && forall k :: 0 <= k < KEYS ==> lens[k] == Learned(h, run, k)
  }

  /** The unbounded totals of all entries of one array. */
  ghost function Totals(h: Hashes, run: seq<Obs>, bank: Bank): (t: seq<nat>)
    ensures |t| == bank.Size()
  {
    seq(bank.Size(), (i: nat) => Tally(h, run, Gauge(bank, i)))
  }

  ghost predicate Stored(bank: Bank, totals: seq<nat>, s: seq<nat>) {
    |s| == |totals| && forall i :: 0 <= i < |s| ==> s[i] == bank.Store(totals[i])
  }

  ghost predicate BankMatch(h: Hashes, run: seq<Obs>, bank: Bank, s: seq<nat>) {
    Stored(bank, Totals(h, run, bank), s)
  }

  lemma LensStep(h: Hashes, run: seq<Obs>, o: Obs, lens: seq<nat>, lens': seq<nat>)
    requires LensMatch(h, run, lens)
    requires lens' == if IsHandshake(o.quic) then lens[Key(h, o) := o.quic.long.dcidLen] else lens
    ensures LensMatch(h, run + [o], lens')
  {
    assert (run + [o])[..|run|] == run;
  }

  lemma TotalsStep(h: Hashes, run: seq<Obs>, o: Obs, bank: Bank)
    ensures var t, at := Totals(h, run, bank), bank.IndexOf(BucketOf(h, run, o));
      at < |t| && Totals(h, run + [o], bank) == t[at := t[at] + bank.Amount(o)]
  {
    var t, t' := Totals(h, run, bank), Totals(h, run + [o], bank);
    var at := bank.IndexOf(BucketOf(h, run, o));
    forall i | 0 <= i < |t| ensures t'[i] == t[i] + if i == at then bank.Amount(o) else 0 {
      Append(h, run, o, Gauge(bank, i));
    }
  }

  lemma StoreAdd(bank: Bank, a: nat, b: nat)
    ensures bank.Store(bank.Store(a) + b) == bank.Store(a + b)
  {
    Low32Add(a, b);
    Low64Add(a, b);
  }

  /** One wrapping increment in place accounts for one more packet. */
  lemma BankStep(h: Hashes, run: seq<Obs>, o: Obs, bank: Bank, at: nat, s: seq<nat>, s': seq<nat>)
    requires BankMatch(h, run, bank, s)
    requires at == bank.IndexOf(BucketOf(h, run, o)) && at < |s|
    requires s' == s[at := bank.Store(s[at] + bank.Amount(o))]
    ensures BankMatch(h, run + [o], bank, s')
  {
    TotalsStep(h, run, o, bank);
    StoreAdd(bank, Totals(h, run, bank)[at], bank.Amount(o));
  }

  lemma ClearedBank(h: Hashes, bank: Bank, s: seq<nat>)
    requires |s| == bank.Size() && forall i :: 0 <= i < |s| ==> s[i] == 0
    ensures BankMatch(h, [], bank, s)
  {
  }

  class Ingress {
    const h: Hashes
    var forceLen: nat
    const dcidLenReg: array<nat>
    const quicPktCount: array<nat>
    const flowPkts: array<nat>
    const flowBytes: array<nat>
    ghost var run: seq<Obs>

    /** Every reachable state: the arrays are exactly what the history determines. */
    ghost predicate Valid()
      reads this, dcidLenReg, quicPktCount, flowPkts, flowBytes
    {
      && Separate()
      && LensMatch(h, run, dcidLenReg[..])
      && BankMatch(h, run, Register, quicPktCount[..])
      && BankMatch(h, run, PacketCounter, flowPkts[..])
      && BankMatch(h, run, ByteCounter, flowBytes[..])
    }

    ghost predicate Separate() {
      flowPkts != flowBytes
    }

    constructor (h: Hashes)
      ensures Valid() && fresh(dcidLenReg) && fresh(quicPktCount) && fresh(flowPkts) && fresh(flowBytes)
      ensures this.h == h && run == [] && forceLen == 0
    {
      this.h := h;
      forceLen := 0;
      dcidLenReg := new nat[KEYS](_ => 0);
      quicPktCount := new nat[BUCKETS](_ => 0);
      flowPkts := new nat[SLOTS](_ => 0);
      flowBytes := new nat[SLOTS](_ => 0);
      run := [];
      new;
      ClearedBank(h, Register, quicPktCount[..]);
      ClearedBank(h, PacketCounter, flowPkts[..]);
      ClearedBank(h, ByteCounter, flowBytes[..]);
    }

    /** The control plane selects the arm. */
    method SetForceLen(len: nat)
      requires Valid()
      modifies this`forceLen
      ensures Valid() && forceLen == len
    {
      forceLen := len;
    }

    /** The control plane clears the three arrays and leaves the arm alone. */
    method Clear()
      requires Valid()
      modifies this`run, dcidLenReg, quicPktCount, flowPkts, flowBytes
      ensures Valid() && run == []
    {
      forall k | 0 <= k < dcidLenReg.Length { dcidLenReg[k] := 0; }
      forall b | 0 <= b < quicPktCount.Length { quicPktCount[b] := 0; }
      forall i | 0 <= i < flowPkts.Length { flowPkts[i] := 0; }
      forall i | 0 <= i < flowBytes.Length { flowBytes[i] := 0; }
      run := [];
      ClearedBank(h, Register, quicPktCount[..]);
      ClearedBank(h, PacketCounter, flowPkts[..]);
      ClearedBank(h, ByteCounter, flowBytes[..]);
    }

    /** learn_len: write the parsed length and return it. */
    method LearnLen(key: nat, len: nat) returns (ret: nat)
      requires key < dcidLenReg.Length
      modifies dcidLenReg
      ensures dcidLenReg[..] == old(dcidLenReg[..])[key := len] && ret == len
    {
      dcidLenReg[key] := len;
      ret := dcidLenReg[key];
    }

    /** count_quic: increment a 32-bit entry, wrapping, and return the new value. */
    method CountQuic(b: nat, ghost o: Obs) returns (rv: nat)
      requires BankMatch(h, run, Register, quicPktCount[..]) && b == BucketOf(h, run, o)
      modifies quicPktCount
      ensures BankMatch(h, run + [o], Register, quicPktCount[..])
      ensures rv == Low32(Tally(h, run, Hits(b)) + 1)
    {
      StoreAdd(Register, Tally(h, run, Hits(b)), 1);
      quicPktCount[b] := Low32(quicPktCount[b] + 1);
      rv := quicPktCount[b];
      BankStep(h, run, o, Register, b, old(quicPktCount[..]), quicPktCount[..]);
    }

    /** quic_flow_bytes.count: one packet and its bytes. */
    method CountFlow(i: nat, size: nat, ghost o: Obs)
      requires Separate()
      requires BankMatch(h, run, PacketCounter, flowPkts[..]) && BankMatch(h, run, ByteCounter, flowBytes[..])
      requires i == BucketOf(h, run, o) % 0x8000 && size == o.size
      modifies flowPkts, flowBytes
      ensures BankMatch(h, run + [o], PacketCounter, flowPkts[..])
      ensures BankMatch(h, run + [o], ByteCounter, flowBytes[..])
    {
      flowPkts[i] := Low64(flowPkts[i] + 1);
      flowBytes[i] := Low64(flowBytes[i] + size);
      BankStep(h, run, o, PacketCounter, i, old(flowPkts[..]), flowPkts[..]);
      BankStep(h, run, o, ByteCounter, i, old(flowBytes[..]), flowBytes[..]);
    }

    /** Steps 1 to 5 of the control: learn or recall the length, then apply the arm. */
    method EffectiveLength(t: FourTuple, q: Quic, ghost o: Obs) returns (effLen: nat)
      requires LensMatch(h, run, dcidLenReg[..])
      requires o.tuple == t && o.quic == q && o.force == forceLen
      modifies dcidLenReg
      ensures LensMatch(h, run + [o], dcidLenReg[..])
      ensures effLen == EffLen(h, run, o)
    {
      var key := FlowKey(h, t);
      effLen := if q.Long? then q.long.dcidLen else 0;
      if IsHandshake(q) {
        effLen := LearnLen(key, q.long.dcidLen);
      } else if q.Short? {
        effLen := dcidLenReg[key];
      }
      if forceLen != 0 {
        effLen := forceLen;
      }
      LensStep(h, run, o, old(dcidLenReg[..]), dcidLenReg[..]);
    }

    /** Steps 6 and 7 of the control: mask by slices, then hash. */
    method FlowId(dcid: Bytes, effLen: nat) returns (flowId: nat)
      requires |dcid| == PAD_LEN
      ensures flowId == CidBucket(h, Take(dcid, Kept(effLen)))
    {
      var masked := SetMask(dcid, MaskTable(effLen));
      MaskingIsPadding(dcid, effLen);
      flowId := HashBucket(h, masked);
    }

    /** The counting step of the control; `first` says that the entry went to 1. */
    method Count(flowId: nat, size: nat, ghost o: Obs) returns (first: bool)
      requires Separate()
      requires BankMatch(h, run, Register, quicPktCount[..])
      requires BankMatch(h, run, PacketCounter, flowPkts[..])
      requires BankMatch(h, run, ByteCounter, flowBytes[..])
      requires flowId == BucketOf(h, run, o) && size == o.size
      modifies quicPktCount, flowPkts, flowBytes
      ensures BankMatch(h, run + [o], Register, quicPktCount[..])
      ensures BankMatch(h, run + [o], PacketCounter, flowPkts[..])
      ensures BankMatch(h, run + [o], ByteCounter, flowBytes[..])
      ensures first <==> RaisesDigest(h, run, o)
    {
      CountFlow(flowId % 0x8000, size, o);
      var cnt := CountQuic(flowId, o);
      first := cnt == 1;
    }

    /** One frame through parser, control and deparser. */
    method Process(f: Bytes) returns (digest: Option<Digest>)
      requires Valid()
      modifies this`run, dcidLenReg, quicPktCount, flowPkts, flowBytes
      ensures Valid() && run == old(run) + Seen(f, forceLen)
      ensures digest == DigestFor(h, old(run), f, forceLen)
    {
      var p := Parse(f);
      digest := None;
      if p.Accepted? {
        ghost var o := Obs(p.tuple, p.quic, forceLen, |f|);
        var effLen := EffectiveLength(p.tuple, p.quic, o);
        var flowId := FlowId(p.quic.Dcid(), effLen);
        var first := Count(flowId, |f|, o);
        if first {
          digest := Some(DigestOf(p));
        }
        run := run + [o];
      }
    }
  }
}
