/** The application side of byte accounting: the client log, folded into the index space of
    the switch's byte counter. */
module ByteLog {
  import opened Tables
  import opened Sums
  import opened Bits

  /** What the two patterns of the log parser find in a line. */
  datatype LogLine = Connected(fid: nat, bucket: nat) | Delivered(fid: nat, bytes: nat) | Other

  /** The bucket that a flow printed last. */
  function FlowBucket(log: seq<LogLine>): map<nat, nat> {
    if log == [] then map[]
    else
      var init, l := FlowBucket(log[..|log| - 1]), log[|log| - 1];
      if l.Connected? then init[l.fid := l.bucket] else init
  }

  /** The volume that a flow reported last. */
  function FlowBytes(log: seq<LogLine>): map<nat, nat> {
    if log == [] then map[]
    else
      var init, l := FlowBytes(log[..|log| - 1]), log[|log| - 1];
      if l.Delivered? then init[l.fid := l.bytes] else init
  }

  /** Line `j` is the last one that names the bucket of a flow. */
  predicate IsLastConnected(log: seq<LogLine>, fid: nat, j: int) {
    && 0 <= j < |log| && log[j].Connected? && log[j].fid == fid
    && forall i :: j < i < |log| ==> !(log[i].Connected? && log[i].fid == fid)
  }

  /** Line `j` is the last one that reports the volume of a flow. */
  predicate IsLastDelivered(log: seq<LogLine>, fid: nat, j: int) {
    && 0 <= j < |log| && log[j].Delivered? && log[j].fid == fid
    && forall i :: j < i < |log| ==> !(log[i].Delivered? && log[i].fid == fid)
  }

  /** A flow has a bucket exactly when some line names one, and then that of the last. */
  lemma {:induction false} BucketIsLast(log: seq<LogLine>, fid: nat)
    ensures fid in FlowBucket(log) <==> exists j :: IsLastConnected(log, fid, j)
    ensures forall j :: IsLastConnected(log, fid, j) ==> FlowBucket(log)[fid] == log[j].bucket
  {
    if log != [] {
      var n := |log| - 1;
      BucketIsLast(log[..n], fid);
      if log[n].Connected? && log[n].fid == fid {
        assert IsLastConnected(log, fid, n);
      } else {
        assert forall j :: IsLastConnected(log, fid, j) <==> IsLastConnected(log[..n], fid, j);
      }
    }
  }

  /** A flow has a volume exactly when some line reports one, and then that of the last. */
  lemma {:induction false} BytesAreLast(log: seq<LogLine>, fid: nat)
    ensures fid in FlowBytes(log) <==> exists j :: IsLastDelivered(log, fid, j)
    ensures forall j :: IsLastDelivered(log, fid, j) ==> FlowBytes(log)[fid] == log[j].bytes
  {
    if log != [] {
      var n := |log| - 1;
      BytesAreLast(log[..n], fid);
      if log[n].Delivered? && log[n].fid == fid {
        assert IsLastDelivered(log, fid, n);
      } else {
        assert forall j :: IsLastDelivered(log, fid, j) <==> IsLastDelivered(log[..n], fid, j);
      }
    }
  }

  datatype Flow = Flow(fid: nat, index: nat, bucket: nat, bytes: nat)

  datatype Warning =
    | NoBucket(fid: nat, bytes: nat)
    | NoBytes(fid: nat, bucket: nat)
    | Folds(index: nat, buckets: set<nat>)

  // ---- sorted keys ----

  lemma {:induction false} Minimum(s: set<nat>) returns (m: nat)
    requires s != {}
    ensures m in s && forall x :: x in s ==> m <= x
    decreases |s|
  {
    var k :| k in s;
    m := k;
    if s != {k} {
      assert s - {k} != {};
      var n := Minimum(s - {k});
      m := if n < k then n else k;
      assert forall x :: x in s ==> x == k || x in s - {k};
    }
  }

  predicate Increasing(s: seq<nat>) {
    forall i, j :: 0 <= i < j < |s| ==> s[i] < s[j]
  }

  method SortedKeys(s: set<nat>) returns (r: seq<nat>)
    ensures Increasing(r) && forall x :: x in r <==> x in s
  {
    r := [];
    var rest := s;
    while rest != {}
      invariant rest <= s && Increasing(r)
      invariant forall x :: x in s <==> x in r || x in rest
      invariant forall i, y :: 0 <= i < |r| && y in rest ==> r[i] < y
      decreases rest
    {
      ghost var least := Minimum(rest);
      var m :| m in rest && forall x :: x in rest ==> m <= x;
      r := r + [m];
      rest := rest - {m};
    }
  }

  // ---- what the parser returns ----

  /** The bytes of the flows that meet at a counter index. */
  function BytesAt(flows: seq<Flow>, i: nat): nat {
    if flows == [] then 0
    else BytesAt(flows[..|flows| - 1], i) + if flows[|flows| - 1].index == i then flows[|flows| - 1].bytes else 0
  }

  function BytesOf(flows: seq<Flow>): nat {
    if flows == [] then 0 else BytesOf(flows[..|flows| - 1]) + flows[|flows| - 1].bytes
  }

  function IndexPairs(flows: seq<Flow>): (s: seq<(nat, nat)>)
    ensures |s| == |flows|
  {
    seq(|flows|, i requires 0 <= i < |flows| => (flows[i].index, flows[i].bucket))
  }

  /** The distinct 17-bit buckets that meet at a counter index. */
  function BucketsAt(flows: seq<Flow>, i: nat): set<nat> {
    Values(IndexPairs(flows), i)
  }

  /** A flow id among `ids` is listed if both of its lines were seen, and warned about
      otherwise: exactly one of the two, with the values of the log. */
  ghost predicate Sorted(log: seq<LogLine>, bits: nat, ids: seq<nat>, flows: seq<Flow>, warnings: seq<Warning>) {
    var fb, fy := FlowBucket(log), FlowBytes(log);
    && (forall f :: f in flows <==>
          && f.fid in ids && f.fid in fb && f.fid in fy
          && f == Flow(f.fid, LowBits(fb[f.fid], bits), fb[f.fid], fy[f.fid]))
    && (forall w :: w in warnings <==>
          match w
          case NoBucket(fid, bytes) => fid in ids && fid !in fb && fid in fy && fy[fid] == bytes
          case NoBytes(fid, bucket) => fid in ids && fid !in fy && fid in fb && fb[fid] == bucket
          case Folds(_, _) => false)
  }

  /** The table of bytes per index adds up each index and, over all of them, everything. */
  ghost predicate Totals(flows: seq<Flow>, table: map<nat, nat>) {
    && (forall i :: Get(table, i) == BytesAt(flows, i))
    && (forall i :: i in table <==> exists f :: f in flows && f.index == i)
    && SetSum(table.Keys, table) == BytesOf(flows)
  }

  /** Every flow is listed once, in ascending order of its id. */
  predicate InOrder(flows: seq<Flow>) {
    forall i, j :: 0 <= i < j < |flows| ==> flows[i].fid < flows[j].fid
  }

  /** The flow that a warning about a missing line names. */
  function FlowOf(w: Warning): nat {
    match w
    case NoBucket(fid, _) => fid
    case NoBytes(fid, _) => fid
    case Folds(_, _) => 0
  }

  /** Warnings about flows only, each flow once, in ascending order of its id. */
  predicate LostInOrder(warnings: seq<Warning>) {
    && (forall i :: 0 <= i < |warnings| ==> !warnings[i].Folds?)
    && forall i, j :: 0 <= i < j < |warnings| ==> FlowOf(warnings[i]) < FlowOf(warnings[j])
  }

  lemma SetSumUpdate(m: map<nat, nat>, k: nat, n: nat)
    ensures SetSum(m[k := Get(m, k) + n].Keys, m[k := Get(m, k) + n]) == SetSum(m.Keys, m) + n
  {
    var m' := m[k := Get(m, k) + n];
    SetSumRemove(m'.Keys, m', k);
    SetSumAgree(m'.Keys - {k}, m', m);
    if k in m {
      SetSumRemove(m.Keys, m, k);
      assert m'.Keys - {k} == m.Keys - {k};
    } else {
      assert m'.Keys - {k} == m.Keys;
    }
  }

  lemma TotalsSnoc(flows: seq<Flow>, table: map<nat, nat>, f: Flow)
    requires Totals(flows, table)
    ensures Totals(flows + [f], table[f.index := Get(table, f.index) + f.bytes])
  {
    var flows', table' := flows + [f], table[f.index := Get(table, f.index) + f.bytes];
    SetSumUpdate(table, f.index, f.bytes);
    assert flows'[..|flows|] == flows;
    forall i ensures Get(table', i) == BytesAt(flows', i)
             ensures i in table' <==> exists g :: g in flows' && g.index == i
    {
      assert Get(table, i) == BytesAt(flows, i);
      if i == f.index {
        assert f in flows';
      } else if i in table {
        var g :| g in flows && g.index == i;
        assert g in flows';
      }
    }
  }

  /** First loop of the parser: the last bucket and the last volume of every flow. */
  method ReadLines(log: seq<LogLine>) returns (fb: map<nat, nat>, fy: map<nat, nat>)
    ensures fb == FlowBucket(log) && fy == FlowBytes(log)
  {
    fb, fy := map[], map[];
    for i := 0 to |log|
      invariant fb == FlowBucket(log[..i]) && fy == FlowBytes(log[..i])
    {
      assert log[..i + 1][..i] == log[..i];
      match log[i]
      case Connected(fid, bucket) =>
        fb := fb[fid := bucket];
      case Delivered(fid, bytes) =>
        fy := fy[fid := bytes];
      case Other =>
    }
    assert log[..|log|] == log;
  }

  lemma SortedSnoc(log: seq<LogLine>, bits: nat, ids: seq<nat>, id: nat, flows: seq<Flow>, warnings: seq<Warning>)
    requires Sorted(log, bits, ids, flows, warnings)
    requires id in FlowBucket(log) || id in FlowBytes(log)
    ensures var fb, fy := FlowBucket(log), FlowBytes(log);
      if id !in fb then Sorted(log, bits, ids + [id], flows, warnings + [NoBucket(id, fy[id])])
      else if id !in fy then Sorted(log, bits, ids + [id], flows, warnings + [NoBytes(id, fb[id])])
      else Sorted(log, bits, ids + [id], flows + [Flow(id, LowBits(fb[id], bits), fb[id], fy[id])], warnings)
  {
    assert forall x :: x in ids + [id] <==> x in ids || x == id;
    assert forall w, v :: w in warnings + [v] <==> w in warnings || w == v;
    assert forall f, g :: f in flows + [g] <==> f in flows || f == g;
  }

  lemma InOrderSnoc(log: seq<LogLine>, bits: nat, ids: seq<nat>, n: nat, flows: seq<Flow>,
                    warnings: seq<Warning>, f: Flow)
    requires Increasing(ids) && n < |ids| && f.fid == ids[n]
    requires Sorted(log, bits, ids[..n], flows, warnings) && InOrder(flows)
    ensures InOrder(flows + [f])
  {
    forall i | 0 <= i < |flows| ensures flows[i].fid < f.fid {
      assert flows[i] in flows;
    }
  }

  lemma LostSnoc(log: seq<LogLine>, bits: nat, ids: seq<nat>, n: nat, flows: seq<Flow>,
                 warnings: seq<Warning>, w: Warning)
    requires Increasing(ids) && n < |ids| && !w.Folds? && FlowOf(w) == ids[n]
    requires Sorted(log, bits, ids[..n], flows, warnings) && LostInOrder(warnings)
    ensures LostInOrder(warnings + [w])
  {
    forall i | 0 <= i < |warnings| ensures FlowOf(warnings[i]) < FlowOf(w) {
      assert warnings[i] in warnings;
    }
  }

  /** Second loop: list or warn about every flow, and add up bytes per index. */
  method ListFlows(log: seq<LogLine>, bits: nat, ids: seq<nat>, fb: map<nat, nat>, fy: map<nat, nat>)
    returns (table: map<nat, nat>, flows: seq<Flow>, warnings: seq<Warning>)
    requires fb == FlowBucket(log) && fy == FlowBytes(log)
    requires Increasing(ids) && forall i :: 0 <= i < |ids| ==> ids[i] in fb || ids[i] in fy
    ensures Sorted(log, bits, ids, flows, warnings) && Totals(flows, table) && InOrder(flows) && LostInOrder(warnings)
  {
    table, flows, warnings := map[], [], [];
    for n := 0 to |ids|
      invariant Sorted(log, bits, ids[..n], flows, warnings) && Totals(flows, table)
      invariant InOrder(flows) && LostInOrder(warnings)
    {
      var id := ids[n];
      SortedSnoc(log, bits, ids[..n], id, flows, warnings);
      assert ids[..n + 1] == ids[..n] + [id];
      if id !in fb {
        LostSnoc(log, bits, ids, n, flows, warnings, NoBucket(id, fy[id]));
        warnings := warnings + [NoBucket(id, fy[id])];
      } else if id !in fy {
        LostSnoc(log, bits, ids, n, flows, warnings, NoBytes(id, fb[id]));
        warnings := warnings + [NoBytes(id, fb[id])];
      } else {
        var f := Flow(id, LowBits(fb[id], bits), fb[id], fy[id]);
        TotalsSnoc(flows, table, f);
        InOrderSnoc(log, bits, ids, n, flows, warnings, f);
        table := table[f.index := Get(table, f.index) + f.bytes];
        flows := flows + [f];
      }
    }
    assert ids[..|ids|] == ids;
  }

  /** The indices in the order in which the flows first use them. */
  function IndexOrder(flows: seq<Flow>): seq<nat> {
    if flows == [] then []
    else
      var init, i := IndexOrder(flows[..|flows| - 1]), flows[|flows| - 1].index;
      if i in init then init else init + [i]
  }

  /** One warning for each index along `order` where different buckets meet. */
  function FoldsAlong(flows: seq<Flow>, order: seq<nat>): seq<Warning> {
    if order == [] then []
    else
      var i := order[|order| - 1];
      var buckets := BucketsAt(flows, i);
      FoldsAlong(flows, order[..|order| - 1]) + if |buckets| > 1 then [Folds(i, buckets)] else []
  }

  lemma {:induction false} IndexOrderHas(flows: seq<Flow>, i: nat)
    ensures i in IndexOrder(flows) <==> i in Relation(IndexPairs(flows))
    ensures Distinct(IndexOrder(flows))
  {
    if flows != [] {
      var n := |flows| - 1;
      IndexOrderHas(flows[..n], i);
      PairsSnoc(flows, n);
      assert flows[..n + 1] == flows;
    }
  }

  lemma PairsSnoc(flows: seq<Flow>, n: nat)
    requires n < |flows|
    ensures Relation(IndexPairs(flows[..n + 1]))
         == Insert(Relation(IndexPairs(flows[..n])), flows[n].index, flows[n].bucket)
  {
    assert IndexPairs(flows[..n + 1]) == IndexPairs(flows[..n]) + [(flows[n].index, flows[n].bucket)];
    RelationSnoc(IndexPairs(flows[..n]), (flows[n].index, flows[n].bucket));
  }

  lemma {:induction false} FoldsHave(flows: seq<Flow>, order: seq<nat>, w: Warning)
    ensures w in FoldsAlong(flows, order) <==>
      w.Folds? && w.index in order && w.buckets == BucketsAt(flows, w.index) && |w.buckets| > 1
  {
    if order != [] {
      var n := |order| - 1;
      FoldsHave(flows, order[..n], w);
      assert order == order[..n] + [order[n]];
    }
  }

  /** Exactly the indices where different buckets meet are warned about. */
  lemma FoldsMean(flows: seq<Flow>, w: Warning)
    ensures w in FoldsAlong(flows, IndexOrder(flows)) <==>
      w.Folds? && w.buckets == BucketsAt(flows, w.index) && |w.buckets| > 1
  {
    FoldsHave(flows, IndexOrder(flows), w);
    if w.Folds? {
      IndexOrderHas(flows, w.index);
      RelationAt(IndexPairs(flows), w.index);
    }
  }

  predicate OnePerIndex(ws: seq<Warning>) {
    && (forall i :: 0 <= i < |ws| ==> ws[i].Folds?)
    && (forall i, j :: 0 <= i < j < |ws| ==> ws[i].index != ws[j].index)
  }

  /** No index is warned about twice. */
  lemma {:induction false} FoldsOnce(flows: seq<Flow>, order: seq<nat>)
    requires Distinct(order)
    ensures OnePerIndex(FoldsAlong(flows, order))
  {
    if order != [] {
      var n := |order| - 1;
      FoldsOnce(flows, order[..n]);
      var ws := FoldsAlong(flows, order[..n]);
      forall i | 0 <= i < |ws| ensures ws[i].Folds? && ws[i].index != order[n] {
        FoldsHave(flows, order[..n], ws[i]);
        assert ws[i] in ws;
      }
    }
  }

  /** Third loop: group the buckets of the flows by index, in a dictionary that keeps the
      order of insertion. */
  method GroupByIndex(flows: seq<Flow>) returns (seen: map<nat, set<nat>>, order: seq<nat>)
    ensures seen == Relation(IndexPairs(flows)) && order == IndexOrder(flows)
  {
    seen, order := map[], [];
    for n := 0 to |flows|
      invariant seen == Relation(IndexPairs(flows[..n])) && order == IndexOrder(flows[..n])
    {
      PairsSnoc(flows, n);
      IndexOrderHas(flows[..n], flows[n].index);
      assert flows[..n + 1][..n] == flows[..n];
      if flows[n].index !in seen {
        order := order + [flows[n].index];
      }
      seen := Insert(seen, flows[n].index, flows[n].bucket);
    }
    assert flows[..|flows|] == flows;
  }

  /** Fourth loop: warn about every index where different 17-bit buckets meet, once and in the
      order in which the indices appeared. */
  method FoldWarnings(flows: seq<Flow>) returns (warnings: seq<Warning>)
    ensures warnings == FoldsAlong(flows, IndexOrder(flows)) && OnePerIndex(warnings)
    ensures forall w :: w in warnings <==> w.Folds? && w.buckets == BucketsAt(flows, w.index) && |w.buckets| > 1
  {
    var seen, order := GroupByIndex(flows);
    warnings := [];
    for n := 0 to |order|
      invariant warnings == FoldsAlong(flows, order[..n])
    {
      var i := order[n];
      assert i in order;
      IndexOrderHas(flows, i);
      RelationAt(IndexPairs(flows), i);
      assert order[..n + 1][..n] == order[..n];
      if |seen[i]| > 1 {
        warnings := warnings + [Folds(i, seen[i])];
      }
    }
    assert order[..|order|] == order;
    IndexOrderHas(flows, 0);
    FoldsOnce(flows, order);
    forall w ensures w in warnings <==> w.Folds? && w.buckets == BucketsAt(flows, w.index) && |w.buckets| > 1 {
      FoldsMean(flows, w);
    }
  }

  /** The complete flows of a log. */
  predicate Complete(log: seq<LogLine>, bits: nat, f: Flow) {
    var fb, fy := FlowBucket(log), FlowBytes(log);
    f.fid in fb && f.fid in fy && f == Flow(f.fid, LowBits(fb[f.fid], bits), fb[f.fid], fy[f.fid])
  }

  /** A complete flow has the bucket and the volume of its last lines, and the index is the low
      bits of that bucket. */
  lemma FlowMeans(log: seq<LogLine>, bits: nat, f: Flow, i: int, j: int)
    requires IsLastConnected(log, f.fid, i) && IsLastDelivered(log, f.fid, j)
    ensures Complete(log, bits, f) <==>
      f.bucket == log[i].bucket && f.bytes == log[j].bytes && f.index == f.bucket % Pow2(bits)
  {
    BucketIsLast(log, f.fid);
    BytesAreLast(log, f.fid);
  }

  /** The warnings that a log calls for. */
  predicate Called(log: seq<LogLine>, flows: seq<Flow>, w: Warning) {
    var fb, fy := FlowBucket(log), FlowBytes(log);
    match w
    case NoBucket(fid, bytes) => fid !in fb && fid in fy && fy[fid] == bytes
    case NoBytes(fid, bucket) => fid !in fy && fid in fb && fb[fid] == bucket
    case Folds(i, buckets) => buckets == BucketsAt(flows, i) && |buckets| > 1
  }

  ghost predicate WarnedInOrder(flows: seq<Flow>, warnings: seq<Warning>) {
    exists lost: seq<Warning>, folded: seq<Warning> ::
      && warnings == lost + folded
      && LostInOrder(lost) && OnePerIndex(folded) && folded == FoldsAlong(flows, IndexOrder(flows))
  }

  /** Application fold: for every log and counter width, every complete flow is listed once
      and every incomplete one warned about, the table adds up the listed flows per index and
      in all, and an index has a fold warning exactly when different buckets meet there. The
      warnings about flows come first, by id, then one for each such index as it appeared. */
  method ParseClientLog(log: seq<LogLine>, bits: nat)
    returns (table: map<nat, nat>, flows: seq<Flow>, warnings: seq<Warning>)
    ensures Totals(flows, table) && InOrder(flows)
    ensures forall f :: f in flows <==> Complete(log, bits, f)
    ensures forall w :: w in warnings <==> Called(log, flows, w)
    ensures WarnedInOrder(flows, warnings)
  {
    var fb, fy := ReadLines(log);
    var ids := SortedKeys(fb.Keys + fy.Keys);
    assert forall i :: 0 <= i < |ids| ==> ids[i] in ids;
    var lost, folded;
    table, flows, lost := ListFlows(log, bits, ids, fb, fy);
    folded := FoldWarnings(flows);
    warnings := lost + folded;
    forall f ensures f in flows <==> Complete(log, bits, f) {
    }
  }
}
