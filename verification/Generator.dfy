/** The connection-ID generator of the traffic client, as a state machine whose steps are the
    critical sections and random reads of concurrent calls. */
module Generator {
  import opened Wire

  /** Copy into a zeroed 20-byte buffer and hash it. */
  method P4Bucket(h: Hashes, id: Bytes) returns (b: nat)
    ensures b == CidBucket(h, id)
  {
    var padded := new bv8[20](_ => 0);
    var n := Min(20, |id|);
    for i := 0 to n
      invariant forall j :: 0 <= j < 20 ==> padded[j] == if j < i then id[j] else 0
    {
      padded[i] := id[i];
    }
    assert padded[..] == Pad20(id);
    b := HashBucket(h, padded[..]);
  }

  /** Where a call of GenerateConnectionID stands. */
  datatype Call =
    | Looked(hasTarget: bool, target: nat)  // read the target under the lock
    | Drawn(id: Bytes)                      // first ID drawn, its bucket not yet recorded
    | Ready(id: Bytes)                      // ID accepted, before the once
    | Announced(id: Bytes)                  // past the once, before returning

  datatype State = State(
    hasTarget: bool, target: nat,
    onceDone: bool, channel: Option<Bytes>, delivered: Option<Bytes>,
    calls: map<nat, Call>, returned: seq<Bytes>)

  const INIT := State(false, 0, false, None, None, map[], [])

  /** One atomic step of call `c`, or of firstCID. */
  datatype Step =
    | Begin(c: nat)
    | Draw(c: nat, id: Bytes)   // a random read that succeeds
    | Fail(c: nat)              // a random read that fails: the call returns the error
    | Record(c: nat)
    | Announce(c: nat)
    | Return(c: nat)
    | Receive                   // firstCID takes the ID from the channel

  /** The state after a step, or None if the step is not enabled. */
  function Apply(h: Hashes, s: State, step: Step): Option<State> {
    match step
    case Begin(c) =>
      if c in s.calls then None else Some(s.(calls := s.calls[c := Looked(s.hasTarget, s.target)]))
    case Draw(c, id) =>
      if c !in s.calls || !s.calls[c].Looked? then None
      else if !s.calls[c].hasTarget then Some(s.(calls := s.calls[c := Drawn(id)]))
      else if CidBucket(h, id) == s.calls[c].target then Some(s.(calls := s.calls[c := Ready(id)]))
      else Some(s)
    case Fail(c) =>
      if c !in s.calls || !s.calls[c].Looked? then None else Some(s.(calls := s.calls - {c}))
    case Record(c) =>
      if c !in s.calls || !s.calls[c].Drawn? then None
      else
        var id := s.calls[c].id;
        Some(s.(hasTarget := true, target := CidBucket(h, id), calls := s.calls[c := Ready(id)]))
    case Announce(c) =>
      if c !in s.calls || !s.calls[c].Ready? then None
      else
        var id := s.calls[c].id;
        var t := s.(calls := s.calls[c := Announced(id)]);
        Some(if s.onceDone then t else t.(onceDone := true, channel := Some(id)))
    case Return(c) =>
      if c !in s.calls || !s.calls[c].Announced? then None
      else Some(s.(calls := s.calls - {c}, returned := s.returned + [s.calls[c].id]))
    case Receive =>
      if s.channel.None? then None else Some(s.(channel := None, delivered := s.channel))
  }

  /** The state after a whole history, or None if some step was not enabled. */
  function Exec(h: Hashes, steps: seq<Step>): Option<State> {
    if steps == [] then Some(INIT)
    else
      match Exec(h, steps[..|steps| - 1])
      case None => None
      case Some(s) => Apply(h, s, steps[|steps| - 1])
  }

  /** A call may begin while nothing is in progress, or once some call has returned an ID. */
  predicate MayBegin(s: State) {
    s.calls == map[] || s.returned != []
  }

  /** The first successful call returned before any other began. */
  predicate Disciplined(h: Hashes, steps: seq<Step>) {
    forall i :: 0 <= i < |steps| && steps[i].Begin? && Exec(h, steps[..i]).Some? ==>
      MayBegin(Exec(h, steps[..i]).value)
  }

  /** An ID in flight is in the target bucket, and no call still believes there is none. */
  predicate OnTarget(h: Hashes, s: State, c: Call) {
    match c
    case Looked(has, t) => has && t == s.target
    case Drawn(_) => false
    case Ready(id) => CidBucket(h, id) == s.target
    case Announced(id) => CidBucket(h, id) == s.target
  }

  predicate MaybeOnTarget(h: Hashes, s: State, o: Option<Bytes>) {
    o.Some? ==> s.hasTarget && CidBucket(h, o.value) == s.target
  }

  ghost predicate Invariant(h: Hashes, s: State) {
    && (s.returned == [] ==> forall c, d :: c in s.calls && d in s.calls ==> c == d)
    && (s.hasTarget ==> forall c :: c in s.calls ==> OnTarget(h, s, s.calls[c]))
    && (!s.hasTarget ==> forall c :: c in s.calls ==>
          s.calls[c].Drawn? || (s.calls[c].Looked? && !s.calls[c].hasTarget))
    && (!s.hasTarget ==> s.returned == [])
    && (forall i :: 0 <= i < |s.returned| ==> CidBucket(h, s.returned[i]) == s.target)
    && MaybeOnTarget(h, s, s.channel) && MaybeOnTarget(h, s, s.delivered)
  }

  lemma StepKeepsInvariant(h: Hashes, s: State, step: Step, s': State)
    requires Invariant(h, s) && Apply(h, s, step) == Some(s') && (step.Begin? ==> MayBegin(s))
    ensures Invariant(h, s')
  {
  }

  lemma {:induction false} InvariantHolds(h: Hashes, steps: seq<Step>)
    requires Disciplined(h, steps) && Exec(h, steps).Some?
    ensures Invariant(h, Exec(h, steps).value)
  {
    if steps != [] {
      var n := |steps| - 1;
      var init := steps[..n];
      assert forall i :: 0 <= i < n ==> init[..i] == steps[..i] && init[i] == steps[i];
      InvariantHolds(h, init);
      StepKeepsInvariant(h, Exec(h, init).value, steps[n], Exec(h, steps).value);
    }
  }

  /** In every disciplined history, however calls interleave and random reads fail, every
      returned connection ID lies in the bucket of the one that firstCID delivers. */
  lemma OneBucketPerConnection(h: Hashes, steps: seq<Step>)
    requires Disciplined(h, steps) && Exec(h, steps).Some?
    ensures var s := Exec(h, steps).value;
      && (forall i, j :: 0 <= i < |s.returned| && 0 <= j < |s.returned| ==>
            CidBucket(h, s.returned[i]) == CidBucket(h, s.returned[j]))
      && (s.delivered.Some? ==> forall i :: 0 <= i < |s.returned| ==>
            CidBucket(h, s.returned[i]) == CidBucket(h, s.delivered.value))
  {
    InvariantHolds(h, steps);
  }

  /** The discipline concerns Begin steps only: it lets a call begin while none is in progress
      or after one has returned, and never hinders other steps. */
  lemma DisciplineAllows(h: Hashes, steps: seq<Step>, step: Step, s: State)
    requires Disciplined(h, steps) && Exec(h, steps) == Some(s)
    ensures Disciplined(h, steps + [step]) <==> !step.Begin? || |s.calls| == 0 || |s.returned| > 0
  {
    var t := steps + [step];
    assert t[..|steps|] == steps && t[|steps|] == step;
    assert forall i :: 0 <= i < |steps| ==> t[..i] == steps[..i] && t[i] == steps[i];
    assert |s.calls| == 0 <==> s.calls == map[];
  }

  // ---- delivery ----

  /** The ID of the first call that announces one, if any does. */
  function FirstAnnounced(h: Hashes, steps: seq<Step>): Option<Bytes> {
    if steps == [] then None
    else
      var init, step := steps[..|steps| - 1], steps[|steps| - 1];
      var before, s := FirstAnnounced(h, init), Exec(h, init);
      if before.Some? then before
      else if s.Some? && step.Announce? && step.c in s.value.calls && s.value.calls[step.c].Ready?
      then Some(s.value.calls[step.c].id)
      else None
  }

  /** The first announced ID waits in the channel until it is received, and is what firstCID
      returns then, whatever later calls do. Before any announcement there is nothing to
      receive, and afterwards exactly one Receive step is enabled. */
  predicate Delivery(s: State, first: Option<Bytes>, received: bool) {
    && (s.onceDone <==> first.Some?)
    && s.channel == (if received then None else first)
    && s.delivered == (if received then first else None)
    && (received ==> first.Some?)
  }

  lemma DeliveryStep(h: Hashes, s: State, step: Step, s': State, first: Option<Bytes>, received: bool)
    requires Apply(h, s, step) == Some(s') && Delivery(s, first, received)
    ensures step.Receive? ==> first.Some? && !received && Delivery(s', first, true)
    ensures step.Announce? ==>
      Delivery(s', if first.Some? then first else Some(s.calls[step.c].id), received)
    ensures !step.Receive? && !step.Announce? ==> Delivery(s', first, received)
  {
  }

  lemma {:induction false} FirstIsDelivered(h: Hashes, steps: seq<Step>)
    requires Exec(h, steps).Some?
    ensures Delivery(Exec(h, steps).value, FirstAnnounced(h, steps), Receive in steps)
    ensures Apply(h, Exec(h, steps).value, Receive).Some? <==> FirstAnnounced(h, steps).Some? && Receive !in steps
  {
    if steps != [] {
      var n := |steps| - 1;
      FirstIsDelivered(h, steps[..n]);
      assert steps == steps[..n] + [steps[n]];
      var s := Exec(h, steps[..n]).value;
      DeliveryStep(h, s, steps[n], Exec(h, steps).value, FirstAnnounced(h, steps[..n]), Receive in steps[..n]);
    }
  }

  /** What each step of a call does to the call itself, and that a failed read ends it without
      returning anything. */
  lemma CallProceeds(h: Hashes, s: State, step: Step, s': State)
    requires Apply(h, s, step) == Some(s') && !step.Receive?
    ensures step.Fail? ==> step.c !in s'.calls && s' == s.(calls := s'.calls)
    ensures step.Return? ==> step.c !in s'.calls && s'.returned == s.returned + [s.calls[step.c].id]
    ensures !step.Return? ==> s'.returned == s.returned
    ensures step.Record? || step.Announce? ==>
      step.c in s'.calls && !s'.calls[step.c].Looked? && s'.calls[step.c].id == s.calls[step.c].id
    ensures !step.Record? ==> s'.hasTarget == s.hasTarget && s'.target == s.target
  {
  }

  /** An undisturbed first call returns the ID that it drew, makes its bucket the target, and
      firstCID receives that ID. */
  lemma FirstCall(h: Hashes, x: Bytes) returns (s: State)
    ensures Exec(h, [Begin(0), Draw(0, x), Record(0), Announce(0), Return(0), Receive]) == Some(s)
    ensures s == State(true, CidBucket(h, x), true, None, Some(x), map[], [x])
  {
    var steps, d := FirstCallAnnounces(h, x);
    var e := d.(calls := d.calls - {0}, returned := d.returned + [x]);
    s := e.(channel := None, delivered := Some(x));
    Extend(h, steps, Return(0), d, e);
    Extend(h, steps + [Return(0)], Receive, e, s);
    assert e.calls == map[] && e.returned == [x];
    assert steps + [Return(0)] + [Receive] == [Begin(0), Draw(0, x), Record(0), Announce(0), Return(0), Receive];
  }

  lemma FirstCallAnnounces(h: Hashes, x: Bytes) returns (steps: seq<Step>, s: State)
    ensures steps == [Begin(0), Draw(0, x), Record(0), Announce(0)] && Exec(h, steps) == Some(s)
    ensures s == State(true, CidBucket(h, x), true, Some(x), None, map[0 := Announced(x)], [])
  {
    var a := INIT.(calls := INIT.calls[0 := Looked(false, 0)]);
    var b := a.(calls := a.calls[0 := Drawn(x)]);
    var c := b.(hasTarget := true, target := CidBucket(h, x), calls := b.calls[0 := Ready(x)]);
    s := c.(onceDone := true, channel := Some(x), calls := c.calls[0 := Announced(x)]);
    Extend(h, [], Begin(0), INIT, a);
    steps := [] + [Begin(0)];
    Extend(h, steps, Draw(0, x), a, b);
    steps := steps + [Draw(0, x)];
    Extend(h, steps, Record(0), b, c);
    steps := steps + [Record(0)];
    Extend(h, steps, Announce(0), c, s);
    steps := steps + [Announce(0)];
    assert s.calls == map[0 := Announced(x)];
  }

  // ---- the discipline is needed ----

  lemma Extend(h: Hashes, steps: seq<Step>, step: Step, s: State, s': State)
    requires Exec(h, steps) == Some(s) && Apply(h, s, step) == Some(s')
    ensures Exec(h, steps + [step]) == Some(s')
    ensures !Disciplined(h, steps) || (step.Begin? && !MayBegin(s)) ==> !Disciplined(h, steps + [step])
  {
    var t := steps + [step];
    assert t[..|steps|] == steps;
    if !Disciplined(h, steps) {
      var i :| 0 <= i < |steps| && steps[i].Begin? && Exec(h, steps[..i]).Some? && !MayBegin(Exec(h, steps[..i]).value);
      assert t[..i] == steps[..i] && t[i] == steps[i];
    } else if step.Begin? && !MayBegin(s) {
      assert t[|steps|] == step;
    }
  }

  /** Two first calls overlap: both read that there is no target and draw their own ID. */
  lemma RaceDraws(h: Hashes, x: Bytes, y: Bytes) returns (steps: seq<Step>, s: State)
    ensures Exec(h, steps) == Some(s) && !Disciplined(h, steps)
    ensures !s.onceDone && s.returned == [] && 0 in s.calls && 1 in s.calls
    ensures s.calls[0] == Drawn(x) && s.calls[1] == Drawn(y)
  {
    var a := INIT.(calls := INIT.calls[0 := Looked(false, 0)]);
    var b := a.(calls := a.calls[1 := Looked(false, 0)]);
    var c := b.(calls := b.calls[0 := Drawn(x)]);
    s := c.(calls := c.calls[1 := Drawn(y)]);
    Extend(h, [], Begin(0), INIT, a);
    Extend(h, [] + [Begin(0)], Begin(1), a, b);
    steps := [] + [Begin(0)] + [Begin(1)];
    Extend(h, steps, Draw(0, x), b, c);
    steps := steps + [Draw(0, x)];
    Extend(h, steps, Draw(1, y), c, s);
    steps := steps + [Draw(1, y)];
  }

  /** The second call overwrites the target that the first one recorded. */
  lemma RaceRecords(h: Hashes, x: Bytes, y: Bytes) returns (steps: seq<Step>, s: State)
    ensures Exec(h, steps) == Some(s) && !Disciplined(h, steps)
    ensures s.onceDone && s.returned == [] && 0 in s.calls && 1 in s.calls
    ensures s.calls[0] == Announced(x) && s.calls[1] == Ready(y)
  {
    var d;
    steps, d := RaceDraws(h, x, y);
    var e := d.(hasTarget := true, target := CidBucket(h, x), calls := d.calls[0 := Ready(x)]);
    var f := e.(target := CidBucket(h, y), calls := e.calls[1 := Ready(y)]);
    s := f.(onceDone := true, channel := Some(x), calls := f.calls[0 := Announced(x)]);
    Extend(h, steps, Record(0), d, e);
    steps := steps + [Record(0)];
    Extend(h, steps, Record(1), e, f);
    steps := steps + [Record(1)];
    Extend(h, steps, Announce(0), f, s);
    steps := steps + [Announce(0)];
  }

  /** The discipline is needed: when both first calls read the target before either records
      one, any two IDs can be returned, whatever their buckets. */
  lemma RaceSplitsBuckets(h: Hashes, x: Bytes, y: Bytes) returns (steps: seq<Step>)
    ensures !Disciplined(h, steps)
    ensures Exec(h, steps).Some? && Exec(h, steps).value.returned == [x, y]
  {
    var g;
    steps, g := RaceRecords(h, x, y);
    var i := g.(calls := g.calls[1 := Announced(y)]);
    var j := i.(calls := i.calls - {0}, returned := i.returned + [x]);
    var k := j.(calls := j.calls - {1}, returned := j.returned + [y]);
    Extend(h, steps, Announce(1), g, i);
    steps := steps + [Announce(1)];
    Extend(h, steps, Return(0), i, j);
    steps := steps + [Return(0)];
    Extend(h, steps, Return(1), j, k);
    steps := steps + [Return(1)];
  }

  // ---- all histories ----

  /** The buckets that calls without a target recorded as the target. */
  function Recorded(h: Hashes, steps: seq<Step>): set<nat> {
    if steps == [] then {}
    else Recorded(h, steps[..|steps| - 1]) + RecordedBy(h, Exec(h, steps[..|steps| - 1]), steps[|steps| - 1])
  }

  function RecordedBy(h: Hashes, s: Option<State>, step: Step): set<nat> {
    if s.Some? && step.Record? && step.c in s.value.calls && s.value.calls[step.c].Drawn?
    then {CidBucket(h, s.value.calls[step.c].id)}
    else {}
  }

  ghost function ReturnedBuckets(h: Hashes, s: State): set<nat> {
    set i | 0 <= i < |s.returned| :: CidBucket(h, s.returned[i])
  }

  predicate Accepted(c: Call) {
    c.Ready? || c.Announced?
  }

  ghost function AcceptedBuckets(h: Hashes, s: State): set<nat> {
    set c | c in s.calls && Accepted(s.calls[c]) :: CidBucket(h, s.calls[c].id)
  }

  /** The target, and every target that a call has read, was recorded. */
  ghost predicate TargetsRecorded(s: State, recorded: set<nat>) {
    && (s.hasTarget ==> s.target in recorded)
    && forall c :: c in s.calls && s.calls[c].Looked? && s.calls[c].hasTarget ==> s.calls[c].target in recorded
  }

  ghost predicate Accounted(h: Hashes, s: State, recorded: set<nat>) {
    ReturnedBuckets(h, s) + AcceptedBuckets(h, s) == recorded && TargetsRecorded(s, recorded)
  }

  lemma StepTargets(h: Hashes, s: State, step: Step, s': State, recorded: set<nat>)
    requires TargetsRecorded(s, recorded) && Apply(h, s, step) == Some(s')
    ensures TargetsRecorded(s', recorded + RecordedBy(h, Some(s), step))
  {
  }

  /** How a step moves accepted IDs: nothing but Record adds a bucket. */
  lemma StepAccounts(h: Hashes, s: State, step: Step, s': State, recorded: set<nat>)
    requires Accounted(h, s, recorded) && Apply(h, s, step) == Some(s')
    ensures Accounted(h, s', recorded + RecordedBy(h, Some(s), step))
  {
    StepTargets(h, s, step, s', recorded);
    if step.Receive? {
      assert ReturnedBuckets(h, s') == ReturnedBuckets(h, s);
      assert AcceptedBuckets(h, s') == AcceptedBuckets(h, s);
    } else {
      CallAccounts(h, s, step, s');
      CallContributes(h, s, step, s', recorded);
    }
  }

  /** An accepted ID stays in its bucket; a newly accepted one is in a recorded bucket. */
  lemma CallContributes(h: Hashes, s: State, step: Step, s': State, recorded: set<nat>)
    requires TargetsRecorded(s, recorded) && Apply(h, s, step) == Some(s') && !step.Receive?
    ensures Contribution(h, s, step.c)
         <= Contribution(h, s', step.c) + if step.Return? then Contribution(h, s, step.c) else {}
    ensures Contribution(h, s', step.c) <= Contribution(h, s, step.c) + recorded + RecordedBy(h, Some(s), step)
    ensures RecordedBy(h, Some(s), step) <= Contribution(h, s', step.c)
  {
  }

  /** The bucket that a call contributes once its ID is accepted. */
  ghost function Contribution(h: Hashes, s: State, c: nat): set<nat> {
    if c in s.calls && Accepted(s.calls[c]) then {CidBucket(h, s.calls[c].id)} else {}
  }

  ghost function Others(h: Hashes, s: State, c: nat): set<nat> {
    set d | d in s.calls && d != c && Accepted(s.calls[d]) :: CidBucket(h, s.calls[d].id)
  }

  lemma CallAccounts(h: Hashes, s: State, step: Step, s': State)
    requires Apply(h, s, step) == Some(s') && !step.Receive?
    ensures AcceptedBuckets(h, s) == Others(h, s, step.c) + Contribution(h, s, step.c)
    ensures AcceptedBuckets(h, s') == Others(h, s, step.c) + Contribution(h, s', step.c)
    ensures ReturnedBuckets(h, s') == ReturnedBuckets(h, s) + if step.Return? then Contribution(h, s, step.c) else {}
  {
    SplitCall(h, s, step.c);
    SplitCall(h, s', step.c);
    OnlyCaller(h, s, step, s');
    SameOthers(h, s, s', step.c);
    if step.Return? {
      assert forall i :: 0 <= i < |s.returned| ==> s'.returned[i] == s.returned[i];
      assert s'.returned[|s.returned|] == s.calls[step.c].id;
    }
  }

  predicate SameExcept(a: map<nat, Call>, b: map<nat, Call>, c: nat) {
    a - {c} == b - {c}
  }

  /** A step of one call leaves all other calls alone. */
  lemma OnlyCaller(h: Hashes, s: State, step: Step, s': State)
    requires Apply(h, s, step) == Some(s') && !step.Receive?
    ensures SameExcept(s.calls, s'.calls, step.c)
  {
  }

  lemma SameOthers(h: Hashes, s: State, s': State, c: nat)
    requires SameExcept(s.calls, s'.calls, c)
    ensures Others(h, s, c) == Others(h, s', c)
  {
    forall d | d != c ensures d in s.calls <==> d in s'.calls
                      ensures d in s.calls ==> s.calls[d] == s'.calls[d]
    {
      assert d in s.calls - {c} <==> d in s'.calls - {c};
      assert d in s.calls ==> (s.calls - {c})[d] == (s'.calls - {c})[d];
    }
  }

  lemma SplitCall(h: Hashes, s: State, c: nat)
    ensures AcceptedBuckets(h, s) == Others(h, s, c) + Contribution(h, s, c)
  {
  }

  lemma {:induction false} HistoryAccounted(h: Hashes, steps: seq<Step>)
    requires Exec(h, steps).Some?
    ensures Accounted(h, Exec(h, steps).value, Recorded(h, steps))
  {
    if steps == [] {
      assert ReturnedBuckets(h, INIT) == {} && AcceptedBuckets(h, INIT) == {};
    } else {
      var n := |steps| - 1;
      HistoryAccounted(h, steps[..n]);
      StepAccounts(h, Exec(h, steps[..n]).value, steps[n], Exec(h, steps).value, Recorded(h, steps[..n]));
    }
  }

  /** All returned IDs lie in one bucket. */
  ghost predicate OneBucket(h: Hashes, s: State) {
    forall a, b :: a in ReturnedBuckets(h, s) && b in ReturnedBuckets(h, s) ==> a == b
  }

  /** For one history without calls in flight: the returned buckets are the recorded ones. */
  lemma OneBucketExactly(h: Hashes, steps: seq<Step>)
    requires Exec(h, steps).Some? && Exec(h, steps).value.calls == map[]
    ensures ReturnedBuckets(h, Exec(h, steps).value) == Recorded(h, steps)
    ensures OneBucket(h, Exec(h, steps).value) <==> |Recorded(h, steps)| <= 1
  {
    HistoryAccounted(h, steps);
    assert AcceptedBuckets(h, Exec(h, steps).value) == {};
    AtMostOne(Recorded(h, steps));
  }

  lemma AtMostOne(r: set<nat>)
    ensures (forall a, b :: a in r && b in r ==> a == b) <==> |r| <= 1
  {
    if |r| > 1 {
      var a :| a in r;
      assert |r - {a}| > 0;
      var b :| b in r - {a};
    } else if a, b :| a in r && b in r && a != b {
      SubsetSize({a, b}, r);
    }
  }

  lemma {:induction false} SubsetSize(a: set<nat>, b: set<nat>)
    requires a <= b
    ensures |a| <= |b|
    decreases |a|
  {
    if a != {} {
      var x :| x in a;
      SubsetSize(a - {x}, b - {x});
    }
  }

  // ---- all schedules ----

  /** The same step of the same call; only a drawn ID may differ. */
  predicate SameShape(a: Step, b: Step) {
    if a.Draw? && b.Draw? then a.c == b.c else a == b
  }

  predicate SameSchedule(r: seq<Step>, s: seq<Step>) {
    |r| == |s| && forall i :: 0 <= i < |r| ==> SameShape(r[i], s[i])
  }

  /** All drawn IDs have the same length. */
  predicate OfLength(steps: seq<Step>, n: nat) {
    forall i :: 0 <= i < |steps| && steps[i].Draw? ==> |steps[i].id| == n
  }

  /** How many calls found no target and recorded their own. */
  function RecordSteps(steps: seq<Step>): nat {
    if steps == [] then 0
    else RecordSteps(steps[..|steps| - 1]) + if steps[|steps| - 1].Record? then 1 else 0
  }

  lemma {:induction false} SameRecordSteps(r: seq<Step>, s: seq<Step>)
    requires SameSchedule(r, s)
    ensures RecordSteps(r) == RecordSteps(s)
  {
    if r != [] {
      var n := |r| - 1;
      SameRecordSteps(r[..n], s[..n]);
      assert SameShape(r[n], s[n]);
    }
  }

  lemma {:induction false} FewRecorded(h: Hashes, steps: seq<Step>)
    ensures |Recorded(h, steps)| <= RecordSteps(steps)
  {
    if steps != [] {
      var n := |steps| - 1;
      FewRecorded(h, steps[..n]);
      var more := RecordedBy(h, Exec(h, steps[..n]), steps[n]);
      assert |Recorded(h, steps[..n]) + more| <= |Recorded(h, steps[..n])| + |more|;
    }
  }

  /** One Record step at most keeps any history in one bucket. */
  lemma OneRecordSuffices(h: Hashes, steps: seq<Step>)
    requires Exec(h, steps).Some? && RecordSteps(steps) <= 1
    ensures OneBucket(h, Exec(h, steps).value)
  {
    HistoryAccounted(h, steps);
    FewRecorded(h, steps);
    AtMostOne(Recorded(h, steps));
  }

  lemma {:induction false} TwoRecords(steps: seq<Step>) returns (i: nat, j: nat)
    requires RecordSteps(steps) >= 2
    ensures i < j < |steps| && steps[i].Record? && steps[j].Record?
  {
    var n := |steps| - 1;
    if steps[n].Record? {
      i := OneRecord(steps[..n]);
      j := n;
    } else {
      i, j := TwoRecords(steps[..n]);
    }
  }

  lemma {:induction false} OneRecord(steps: seq<Step>) returns (i: nat)
    requires RecordSteps(steps) >= 1
    ensures i < |steps| && steps[i].Record?
  {
    var n := |steps| - 1;
    if steps[n].Record? {
      i := n;
    } else {
      i := OneRecord(steps[..n]);
    }
  }

  /** There is a target, and call `c`, if it is under way, knows that. */
  predicate Aware(s: State, c: nat) {
    s.hasTarget && (c in s.calls ==> !s.calls[c].Drawn? && (s.calls[c].Looked? ==> s.calls[c].hasTarget))
  }

  lemma AwareStep(h: Hashes, s: State, step: Step, s': State, c: nat)
    requires Apply(h, s, step) == Some(s') && (Aware(s, c) || step == Record(c))
    ensures Aware(s', c)
  {
  }

  /** After call `c` has recorded a target, no later call of that name can find none. */
  lemma {:induction false} RecordedOnce(h: Hashes, steps: seq<Step>, c: nat)
    requires Exec(h, steps).Some? && Record(c) in steps
    ensures Aware(Exec(h, steps).value, c)
  {
    var n := |steps| - 1;
    assert steps == steps[..n] + [steps[n]];
    if Record(c) in steps[..n] {
      RecordedOnce(h, steps[..n], c);
    }
    AwareStep(h, Exec(h, steps[..n]).value, steps[n], Exec(h, steps).value, c);
  }

  lemma {:induction false} ExecPrefix(h: Hashes, steps: seq<Step>, n: nat)
    requires Exec(h, steps).Some? && n <= |steps|
    ensures Exec(h, steps[..n]).Some?
  {
    if n < |steps| {
      ExecPrefix(h, steps[..|steps| - 1], n);
      assert steps[..|steps| - 1][..n] == steps[..n];
    } else {
      assert steps[..n] == steps;
    }
  }

  lemma RecordersDiffer(h: Hashes, steps: seq<Step>, i: nat, j: nat)
    requires Exec(h, steps).Some? && i < j < |steps| && steps[i].Record? && steps[j].Record?
    ensures steps[i].c != steps[j].c
  {
    ExecPrefix(h, steps, j);
    ExecPrefix(h, steps, j + 1);
    assert steps[..j + 1][..j] == steps[..j];
    if steps[i].c == steps[j].c {
      assert steps[..j][i] == Record(steps[j].c);
      RecordedOnce(h, steps[..j], steps[j].c);
    }
  }

  // ---- the same schedule with other IDs ----

  /** A CRC-32 that puts an ID into the bucket of its first byte. */
  const LEAD: Hashes := Hashes(_ => 0, (x: Bytes) => if x == [] then 0 else x[0] as int)

  /** The configured length of all IDs, if there are any bytes at all. */
  type Length = n: nat | n >= 1 witness 1

  /** An ID of length `n` with the given first byte. */
  function Id(v: bv8, n: Length): (id: Bytes)
    ensures |id| == n
  {
    [v] + Zeros(n - 1)
  }

  lemma LeadBucket(v: bv8, n: Length)
    ensures CidBucket(LEAD, Id(v, n)) == v as int
  {
    var input := Pad20(Id(v, n));
    assert input[0] == v;
    LeadOf(input);
  }

  lemma LeadOf(input: Bytes)
    requires input != []
    ensures HashBucket(LEAD, input) == input[0] as int
  {
    SmallByte(input[0]);
  }

  lemma SmallByte(v: bv8)
    ensures 0 <= v as int < 0x100
  {
  }

  /** Call `m` draws an ID of bucket 1 when it finds no target, all others one of bucket 0. */
  function Choice(c: nat, m: nat): bv8 {
    if c == m then 1 else 0
  }

  predicate SameStage(a: Call, b: Call) {
    match (a, b)
    case (Looked(x, _), Looked(y, _)) => x == y
    case (Drawn(_), Drawn(_)) => true
    case (Ready(_), Ready(_)) => true
    case (Announced(_), Announced(_)) => true
    case _ => false
  }

  /** Two states that differ in IDs and buckets only. */
  predicate Twins(s: State, t: State) {
    && s.hasTarget == t.hasTarget && s.onceDone == t.onceDone && s.channel.Some? == t.channel.Some?
    && s.calls.Keys == t.calls.Keys && forall c :: c in s.calls ==> SameStage(s.calls[c], t.calls[c])
  }

  predicate ToldCall(c: nat, call: Call, m: nat, n: Length) {
    && (call.Drawn? ==> call.id == Id(Choice(c, m), n))
    && (call.Looked? ==> call.target < 2)
  }

  predicate Told(t: State, m: nat, n: Length) {
    t.target < 2 && forall c :: c in t.calls ==> ToldCall(c, t.calls[c], m, n)
  }

  function ToldStep(h: Hashes, s: State, step: Step, t: State, m: nat, n: Length): Step {
    if !step.Draw? || step.c !in s.calls || step.c !in t.calls then step
    else if !s.calls[step.c].Looked? || !t.calls[step.c].Looked? then step
    else if !s.calls[step.c].hasTarget then Draw(step.c, Id(Choice(step.c, m), n))
    else if CidBucket(h, step.id) != s.calls[step.c].target then Draw(step.c, Id(2, n))
    else Draw(step.c, Id(if t.calls[step.c].target == 0 then 0 else 1, n))
  }

  /** The retold step is enabled and keeps the two states twins. */
  predicate Retold(step: Step, s': State, t: State, told: Step, m: nat, n: Length) {
    && SameShape(step, told) && Apply(LEAD, t, told).Some? && (told.Draw? ==> |told.id| == n)
    && Twins(s', Apply(LEAD, t, told).value) && Told(Apply(LEAD, t, told).value, m, n)
  }

  /** Twins stay twins when one call advances on both sides. */
  lemma AdvanceTwins(s: State, t: State, c: nat, x: Call, y: Call, m: nat, n: Length)
    requires Twins(s, t) && Told(t, m, n) && SameStage(x, y) && ToldCall(c, y, m, n)
    ensures Twins(s.(calls := s.calls[c := x]), t.(calls := t.calls[c := y]))
    ensures Told(t.(calls := t.calls[c := y]), m, n)
  {
  }

  lemma RetellDraw(h: Hashes, s: State, c: nat, id: Bytes, s': State, t: State, m: nat, n: Length)
    requires Apply(h, s, Draw(c, id)) == Some(s') && Twins(s, t) && Told(t, m, n)
    ensures Retold(Draw(c, id), s', t, ToldStep(h, s, Draw(c, id), t, m, n), m, n)
  {
    var x, y := s.calls[c], t.calls[c];
    assert SameStage(x, y) && ToldCall(c, y, m, n);
    if !x.hasTarget {
      AdvanceTwins(s, t, c, Drawn(id), Drawn(Id(Choice(c, m), n)), m, n);
    } else if CidBucket(h, id) != x.target {
      LeadBucket(2, n);
    } else {
      var v: bv8 := if y.target == 0 then 0 else 1;
      LeadBucket(v, n);
      AdvanceTwins(s, t, c, Ready(id), Ready(Id(v, n)), m, n);
    }
  }

  lemma RetellRecord(h: Hashes, s: State, c: nat, s': State, t: State, m: nat, n: Length)
    requires Apply(h, s, Record(c)) == Some(s') && Twins(s, t) && Told(t, m, n)
    ensures Retold(Record(c), s', t, Record(c), m, n)
    ensures RecordedBy(LEAD, Some(t), Record(c)) == {Choice(c, m) as int}
  {
    assert SameStage(s.calls[c], t.calls[c]) && ToldCall(c, t.calls[c], m, n);
    LeadBucket(Choice(c, m), n);
  }

  lemma RetellOther(h: Hashes, s: State, step: Step, s': State, t: State, m: nat, n: Length)
    requires Apply(h, s, step) == Some(s') && Twins(s, t) && Told(t, m, n) && !step.Draw? && !step.Record?
    ensures Retold(step, s', t, step, m, n)
  {
    if !step.Receive? && step.c in s.calls {
      assert SameStage(s.calls[step.c], t.calls[step.c]) && ToldCall(step.c, t.calls[step.c], m, n);
    }
  }

  /** Any step can be retold with the chosen IDs. */
  lemma Retell(h: Hashes, s: State, step: Step, s': State, t: State, m: nat, n: Length)
    requires Apply(h, s, step) == Some(s') && Twins(s, t) && Told(t, m, n)
    ensures Retold(step, s', t, ToldStep(h, s, step, t, m, n), m, n)
    ensures step.Record? ==> RecordedBy(LEAD, Some(t), ToldStep(h, s, step, t, m, n)) == {Choice(step.c, m) as int}
  {
    match step
    case Draw(c, id) => RetellDraw(h, s, c, id, s', t, m, n);
    case Record(c) => RetellRecord(h, s, c, s', t, m, n);
    case _ => RetellOther(h, s, step, s', t, m, n);
  }

  /** A history retold so far: twin states, and every recording call recorded its choice. */
  ghost predicate RetoldSo(h: Hashes, steps: seq<Step>, told: seq<Step>, m: nat, n: Length) {
    && SameSchedule(steps, told) && OfLength(told, n) && Exec(h, steps).Some? && Exec(LEAD, told).Some?
    && Twins(Exec(h, steps).value, Exec(LEAD, told).value) && Told(Exec(LEAD, told).value, m, n)
    && Choices(steps, Recorded(LEAD, told), m)
  }

  predicate Choices(steps: seq<Step>, recorded: set<nat>, m: nat) {
    forall i :: 0 <= i < |steps| && steps[i].Record? ==> Choice(steps[i].c, m) as int in recorded
  }

  lemma ToldSnoc(told: seq<Step>, step: Step)
    requires Exec(LEAD, told).Some?
    ensures Exec(LEAD, told + [step]) == Apply(LEAD, Exec(LEAD, told).value, step)
    ensures Recorded(LEAD, told + [step]) == Recorded(LEAD, told) + RecordedBy(LEAD, Exec(LEAD, told), step)
  {
    assert (told + [step])[..|told|] == told;
  }

  lemma ShapeSnoc(steps: seq<Step>, told: seq<Step>, step: Step, before: set<nat>, more: set<nat>, m: nat)
    requires steps != [] && SameSchedule(steps[..|steps| - 1], told) && SameShape(steps[|steps| - 1], step)
    requires Choices(steps[..|steps| - 1], before, m)
    requires steps[|steps| - 1].Record? ==> more == {Choice(steps[|steps| - 1].c, m) as int}
    ensures SameSchedule(steps, told + [step]) && Choices(steps, before + more, m)
  {
  }

  lemma RetoldSnoc(h: Hashes, steps: seq<Step>, told: seq<Step>, m: nat, n: Length) returns (step: Step)
    requires steps != [] && Exec(h, steps).Some? && RetoldSo(h, steps[..|steps| - 1], told, m, n)
    ensures RetoldSo(h, steps, told + [step], m, n)
  {
    var last := |steps| - 1;
    var s, t := Exec(h, steps[..last]).value, Exec(LEAD, told).value;
    step := ToldStep(h, s, steps[last], t, m, n);
    Retell(h, s, steps[last], Exec(h, steps).value, t, m, n);
    ToldSnoc(told, step);
    ShapeSnoc(steps, told, step, Recorded(LEAD, told), RecordedBy(LEAD, Some(t), step), m);
  }

  lemma {:induction false} RetellAll(h: Hashes, steps: seq<Step>, m: nat, n: Length) returns (told: seq<Step>)
    requires Exec(h, steps).Some?
    ensures RetoldSo(h, steps, told, m, n)
  {
    told := [];
    if steps != [] {
      var before := RetellAll(h, steps[..|steps| - 1], m, n);
      var step := RetoldSnoc(h, steps, before, m, n);
      told := before + [step];
    }
  }

  // ---- IDs of one length ----

  predicate CallOfLength(c: Call, n: nat) {
    !c.Looked? ==> |c.id| == n
  }

  ghost predicate StateOfLength(s: State, n: nat) {
    && (forall c :: c in s.calls ==> CallOfLength(s.calls[c], n))
    && (forall i :: 0 <= i < |s.returned| ==> |s.returned[i]| == n)
  }

  lemma StepOfLength(h: Hashes, s: State, step: Step, s': State, n: nat)
    requires Apply(h, s, step) == Some(s') && StateOfLength(s, n) && (step.Draw? ==> |step.id| == n)
    ensures StateOfLength(s', n)
  {
    if !step.Receive? && step.c in s.calls {
      assert CallOfLength(s.calls[step.c], n);
    }
  }

  lemma {:induction false} HistoryOfLength(h: Hashes, steps: seq<Step>, n: nat)
    requires Exec(h, steps).Some? && OfLength(steps, n)
    ensures StateOfLength(Exec(h, steps).value, n)
  {
    if steps != [] {
      var last := |steps| - 1;
      HistoryOfLength(h, steps[..last], n);
      StepOfLength(h, Exec(h, steps[..last]).value, steps[last], Exec(h, steps).value, n);
    }
  }

  /** Empty IDs all share a bucket. */
  lemma EmptyIds(h: Hashes, steps: seq<Step>)
    requires Exec(h, steps).Some? && OfLength(steps, 0)
    ensures OneBucket(h, Exec(h, steps).value)
  {
    HistoryOfLength(h, steps, 0);
    var s := Exec(h, steps).value;
    assert forall i :: 0 <= i < |s.returned| ==> s.returned[i] == [];
  }

  /** Whatever IDs of length `n` are drawn, and whatever the CRC, a schedule keeps to one
      bucket. */
  ghost predicate AlwaysOneBucket(steps: seq<Step>, n: nat) {
    forall g: Hashes, told: seq<Step> ::
      SameSchedule(steps, told) && OfLength(told, n) && Exec(g, told).Some? ==> OneBucket(g, Exec(g, told).value)
  }

  lemma TwoRecordsSplit(h: Hashes, steps: seq<Step>, n: Length)
    requires Exec(h, steps).Some? && Exec(h, steps).value.calls == map[] && RecordSteps(steps) >= 2
    ensures !AlwaysOneBucket(steps, n)
  {
    var i, j := TwoRecords(steps);
    RecordersDiffer(h, steps, i, j);
    var told := RetellAll(h, steps, steps[j].c, n);
    OneBucketExactly(LEAD, told);
    assert 0 in Recorded(LEAD, told) && 1 in Recorded(LEAD, told);
    assert !OneBucket(LEAD, Exec(LEAD, told).value);
  }

  /** Exactly which schedules keep a connection in one bucket, for each configured length of
      IDs: those in which at most one call found no target and recorded its own, and all of
      them if IDs are empty. A schedule says which call takes which step, and in what order. */
  lemma ScheduleExactly(h: Hashes, steps: seq<Step>, n: nat)
    requires Exec(h, steps).Some? && Exec(h, steps).value.calls == map[]
    ensures AlwaysOneBucket(steps, n) <==> RecordSteps(steps) <= 1 || n == 0
  {
    if RecordSteps(steps) <= 1 || n == 0 {
      forall g: Hashes, told: seq<Step> | SameSchedule(steps, told) && OfLength(told, n) && Exec(g, told).Some?
        ensures OneBucket(g, Exec(g, told).value)
      {
        if n == 0 {
          EmptyIds(g, told);
        } else {
          SameRecordSteps(steps, told);
          OneRecordSuffices(g, told);
        }
      }
    } else {
      TwoRecordsSplit(h, steps, n);
    }
  }
}
