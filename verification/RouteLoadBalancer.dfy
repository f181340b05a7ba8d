/** Round robin over the routable instances of a service (`internal/route/config/load_balancer.go`). */
module RouteLoadBalancer {
  import opened ConfigModel
  import opened HealthModel
  import opened HealthStore
  import opened Remainders
  import opened Wrappers

  /** Cursors are unsigned 64-bit integers. */
  const TWO_64: int := 0x1_0000_0000_0000_0000

  predicate IsUint64(x: int) {
    0 <= x < TWO_64
  }

  datatype RouteError = SnapshotRequired | ServiceNameRequired | ServiceNotFound | NoHealthyInstance

  /** The list position looked at `offset` steps after cursor value `index`; the sum wraps before the remainder. */
  function ScanPosition(index: int, offset: int, n: int): (p: int)
    requires n > 0
    ensures 0 <= p < n
  {
    (index + offset) % TWO_64 % n
  }

  /** The first ready position of the scan from `offset` on. */
  function FirstReady(ready: seq<bool>, index: int, offset: int): (r: Option<int>)
    requires ready != [] && 0 <= offset <= |ready|
    ensures r.Some? ==> 0 <= r.value < |ready| && ready[r.value]
    decreases |ready| - offset
  {
    if offset == |ready| then None
    else if ready[ScanPosition(index, offset, |ready|)] then Some(ScanPosition(index, offset, |ready|))
    else FirstReady(ready, index, offset + 1)
  }

  function Ready(instances: seq<InstanceSettings>, records: Records): seq<bool> {
    seq(|instances|, i requires 0 <= i < |instances| => Routable(records, instances[i].healthKey))
  }

  class LoadBalancer {
    var cursors: map<string, int>
    const health: Store?

    constructor (health: Store?)
      ensures this.health == health && cursors == map[]
    {
      this.health, cursors := health, map[];
    }

    ghost predicate Valid()
      reads this
    {
      forall name :: name in cursors ==> IsUint64(cursors[name])
    }

    /** A service's first call finds its cursor at 0. The call answers the first routable instance of its scan. */
    method NextInstance(snapshot: Option<Snapshot>, serviceName: string) returns (r: Result<InstanceSettings, RouteError>)
      requires Valid()
      modifies this`cursors
      ensures Valid()
      ensures snapshot == None ==> r == Failure(SnapshotRequired) && cursors == old(cursors)
      ensures snapshot.Some? && serviceName == "" ==> r == Failure(ServiceNameRequired) && cursors == old(cursors)
      ensures snapshot.Some? && serviceName != "" && serviceName !in snapshot.value.services
        ==> r == Failure(ServiceNotFound) && cursors == old(cursors)
      ensures snapshot.Some? && serviceName != "" && serviceName in snapshot.value.services ==>
        var instances := snapshot.value.services[serviceName].instances;
        var index := if serviceName in old(cursors) then old(cursors)[serviceName] else 0;
        if instances == [] then r == Failure(NoHealthyInstance) && cursors == old(cursors)
        else
          && cursors == old(cursors)[serviceName := (index + 1) % TWO_64]
          && r == AnswerAt(instances, if health == null then map[] else health.records, index)
      ensures r.Success? ==>
        && snapshot.Some? && serviceName in snapshot.value.services
        && r.value in snapshot.value.services[serviceName].instances
      ensures r.Success? && health != null && r.value.healthKey in health.records && r.value.healthKey != "" ==>
        health.records[r.value.healthKey].status != Unhealthy
    {
      if snapshot == None {
        return Failure(SnapshotRequired);
      }
      if serviceName == "" {
        return Failure(ServiceNameRequired);
      }
      if serviceName !in snapshot.value.services {
        return Failure(ServiceNotFound);
      }
      var instances := snapshot.value.services[serviceName].instances;
      if |instances| == 0 {
        return Failure(NoHealthyInstance);
      }
      var index := if serviceName in cursors then cursors[serviceName] else 0;
      cursors := cursors[serviceName := (index + 1) % TWO_64];
      ghost var ready := Ready(instances, if health == null then map[] else health.records);
      var offset := 0;
      while offset < |instances|
        invariant 0 <= offset <= |instances|
        invariant cursors == old(cursors)[serviceName := (index + 1) % TWO_64]
        invariant FirstReady(ready, index, 0) == FirstReady(ready, index, offset)
      {
        var instance := instances[ScanPosition(index, offset, |instances|)];
        var routable := true;
        if health != null {
          routable := health.IsRoutableKey(instance.healthKey);
        }
        if routable {
          return Success(instance);
        }
        offset := offset + 1;
      }
      return Failure(NoHealthyInstance);
    }

    /** `count` calls in a row on one snapshot, the health records staying as they are: each answers for the next cursor
        value, and the cursors of other services stay where they are. */
    method Repeat(snapshot: Snapshot, serviceName: string, count: nat) returns (answers: seq<Result<InstanceSettings, RouteError>>)
      requires Valid() && serviceName != "" && serviceName in snapshot.services && snapshot.services[serviceName].instances != []
      modifies this`cursors
      ensures Valid() && |answers| == count && cursors - {serviceName} == old(cursors) - {serviceName}
      ensures var start := if serviceName in old(cursors) then old(cursors)[serviceName] else 0;
        && (count > 0 ==> serviceName in cursors && cursors[serviceName] == (start + count) % TWO_64)
        && forall j :: 0 <= j < count ==> answers[j] == AnswerAt(
             snapshot.services[serviceName].instances, if health == null then map[] else health.records, (start + j) % TWO_64)
    {
      ghost var instances := snapshot.services[serviceName].instances;
      ghost var start := if serviceName in cursors then cursors[serviceName] else 0;
      ghost var records := if health == null then map[] else health.records;
      answers := [];
      for j := 0 to count
        invariant Valid() && |answers| == j && cursors - {serviceName} == old(cursors) - {serviceName}
        invariant (if serviceName in cursors then cursors[serviceName] else 0) == (start + j) % TWO_64
        invariant j > 0 ==> serviceName in cursors
        invariant forall i :: 0 <= i < j ==> answers[i] == AnswerAt(instances, records, (start + i) % TWO_64)
      {
        CursorAdvances(start, j);
        ghost var before := cursors;
        var answer := NextInstance(Some(snapshot), serviceName);
        assert cursors - {serviceName} == before - {serviceName};
        answers := answers + [answer];
      }
    }

    /** One round: as many calls in a row as the service has instances. Under the exact condition of `FairShareIff` each
        instance is answered its share of times. */
    method Round(snapshot: Snapshot, serviceName: string) returns (answers: seq<Result<InstanceSettings, RouteError>>)
      requires Valid() && serviceName != "" && serviceName in snapshot.services && snapshot.services[serviceName].instances != []
      modifies this`cursors
      ensures Valid() && cursors - {serviceName} == old(cursors) - {serviceName}
      ensures var instances := snapshot.services[serviceName].instances;
        var start := if serviceName in old(cursors) then old(cursors)[serviceName] else 0;
        var ready := Ready(instances, if health == null then map[] else health.records);
        && |answers| == |instances|
        && (DistinctInstances(instances) ==>
              forall p :: 0 <= p < |instances| ==> Answered(answers, instances[p]) == Picks(ready, start, |instances|, p))
        && (DistinctInstances(instances) && |instances| < TWO_64 && RegularRun(start, |instances|) ==>
              forall p :: 0 <= p < |instances| ==> Answered(answers, instances[p]) == Share(ready, p))
    {
      ghost var start := if serviceName in cursors then cursors[serviceName] else 0;
      answers := Repeat(snapshot, serviceName, |snapshot.services[serviceName].instances|);
      ghost var instances := snapshot.services[serviceName].instances;
      if DistinctInstances(instances) {
        AnswersAreShared(instances, if health == null then map[] else health.records, start, answers);
      }
    }
  }

  /** The answer of a call with the given cursor. */
  function AnswerAt(instances: seq<InstanceSettings>, records: Records, index: int): Result<InstanceSettings, RouteError>
    requires instances != []
  {
    match FirstReady(Ready(instances, records), index, 0)
    case None => Failure(NoHealthyInstance)
    case Some(p) => Success(instances[p])
  }

  predicate DistinctInstances(instances: seq<InstanceSettings>) {
    forall i, j :: 0 <= i < j < |instances| ==> instances[i] != instances[j]
  }

  /** How many of the answers are the instance. */
  function Answered(answers: seq<Result<InstanceSettings, RouteError>>, instance: InstanceSettings): nat {
    if answers == [] then 0
    else Answered(answers[..|answers| - 1], instance) + if answers[|answers| - 1] == Success(instance) then 1 else 0
  }

  lemma CursorAdvances(start: int, j: nat)
    ensures ((start + j) % TWO_64 + 1) % TWO_64 == (start + j + 1) % TWO_64
  {
    var x := start + j;
    var k, r := x / TWO_64, x % TWO_64;
    assert x == k * TWO_64 + r;
    if r + 1 < TWO_64 {
      RemainderIsUnique(x + 1, TWO_64, k, r + 1);
      RemainderIsUnique(r + 1, TWO_64, 0, r + 1);
    } else {
      RemainderIsUnique(x + 1, TWO_64, k + 1, 0);
      RemainderIsUnique(r + 1, TWO_64, 1, 0);
    }
  }

  lemma {:induction false} AnsweredIsPicked(instances: seq<InstanceSettings>, records: Records, start: int,
                                            answers: seq<Result<InstanceSettings, RouteError>>, p: int)
    requires DistinctInstances(instances) && 0 <= p < |instances|
    requires forall j :: 0 <= j < |answers| ==> answers[j] == AnswerAt(instances, records, (start + j) % TWO_64)
    ensures Answered(answers, instances[p]) == Picks(Ready(instances, records), start, |answers|, p)
  {
    if answers != [] {
      var n := |answers| - 1;
      AnsweredIsPicked(instances, records, start, answers[..n], p);
      assert answers[n] == Success(instances[p]) <==> Picked(Ready(instances, records), start, n, p);
    }
  }

  lemma AnswersAreShared(instances: seq<InstanceSettings>, records: Records, start: int,
                         answers: seq<Result<InstanceSettings, RouteError>>)
    requires instances != [] && DistinctInstances(instances) && IsUint64(start)
    requires forall j :: 0 <= j < |answers| ==> answers[j] == AnswerAt(instances, records, (start + j) % TWO_64)
    ensures forall p :: 0 <= p < |instances| ==>
      Answered(answers, instances[p]) == Picks(Ready(instances, records), start, |answers|, p)
    ensures |answers| == |instances| < TWO_64 && RegularRun(start, |answers|) ==>
      forall p :: 0 <= p < |answers| ==> Answered(answers, instances[p]) == Share(Ready(instances, records), p)
  {
    forall p | 0 <= p < |instances|
      ensures Answered(answers, instances[p]) == Picks(Ready(instances, records), start, |answers|, p)
    {
      AnsweredIsPicked(instances, records, start, answers, p);
    }
    if |answers| == |instances| < TWO_64 && RegularRun(start, |answers|) {
      forall p | 0 <= p < |answers| ensures Answered(answers, instances[p]) == Share(Ready(instances, records), p) {
        FairShare(Ready(instances, records), start, p);
      }
    }
  }

  /** Without a health provider every instance is routable: the answer is the instance at the cursor. */
  lemma PlainRoundRobin(instances: seq<InstanceSettings>, index: int)
    requires instances != [] && IsUint64(index)
    ensures AnswerAt(instances, map[], index) == Success(instances[index % |instances|])
  {
    PositionBeforeWrap(index, 0, |instances|);
  }

  /** With a regular scan, failing means that every instance is Unhealthy in the records. */
  lemma FailureMeansAllUnhealthy(instances: seq<InstanceSettings>, records: Records, index: int)
    requires 0 < |instances| < TWO_64 && IsUint64(index) && Regular(index, |instances|)
    ensures AnswerAt(instances, records, index).Failure? <==> forall i :: 0 <= i < |instances| ==>
      instances[i].healthKey != "" && instances[i].healthKey in records && records[instances[i].healthKey].status == Unhealthy
  {
    var ready := Ready(instances, records);
    ScanCoversIff(index, |instances|);
    CoveringScanFinds(ready, index);
    assert forall i :: 0 <= i < |instances| ==> (ready[i] <==> Routable(records, instances[i].healthKey));
  }

  /** Offset `d` is the first from `offset` on whose position is ready. */
  ghost predicate FirstReadyAt(ready: seq<bool>, index: int, offset: int, d: int)
    requires ready != []
  {
    && offset <= d < |ready| && ready[ScanPosition(index, d, |ready|)]
    && forall e :: offset <= e < d ==> !ready[ScanPosition(index, e, |ready|)]
  }

  lemma {:induction false} FirstReadyIsFirst(ready: seq<bool>, index: int, offset: int) returns (d: int)
    requires ready != [] && 0 <= offset <= |ready|
    ensures match FirstReady(ready, index, offset)
      case None => forall e :: offset <= e < |ready| ==> !ready[ScanPosition(index, e, |ready|)]
      case Some(p) => FirstReadyAt(ready, index, offset, d) && ScanPosition(index, d, |ready|) == p
    decreases |ready| - offset
  {
    d := offset;
    if offset < |ready| && !ready[ScanPosition(index, offset, |ready|)] {
      d := FirstReadyIsFirst(ready, index, offset + 1);
    }
  }

  // What one call scans.

  /** Position `p` of an n-element list is looked at in the scan that starts at cursor value `index`. */
  ghost predicate Visits(index: int, n: int, p: int)
    requires n > 0
  {
    exists d :: 0 <= d < n && ScanPosition(index, d, n) == p
  }

  ghost predicate Covers(index: int, n: int)
    requires n > 0
  {
    forall p :: 0 <= p < n ==> Visits(index, n, p)
  }

  lemma PositionBeforeWrap(index: int, d: int, n: int)
    requires n > 0 && 0 <= index && 0 <= d && index + d < TWO_64
    ensures ScanPosition(index, d, n) == (index + d) % n
  {
    RemainderIsUnique(index + d, TWO_64, 0, index + d);
  }

  lemma PositionAfterWrap(index: int, d: int, n: int)
    requires 0 < n <= TWO_64 && 0 <= d < n && 0 <= index < TWO_64 <= index + d
    ensures ScanPosition(index, d, n) == index + d - TWO_64
  {
    var p := index + d - TWO_64;
    assert 0 <= p < n;
    RemainderIsUnique(index + d, TWO_64, 1, p);
    RemainderIsUnique(p, n, 0, p);
  }

  /** The scan does not pass the end of the 64-bit range, or the list length divides 2^64 so that passing it does not
      matter. */
  predicate Regular(index: int, n: int)
    requires n > 0
  {
    index + n <= TWO_64 || TWO_64 % n == 0
  }

  lemma PositionWhenRegular(index: int, d: int, n: int)
    requires 0 < n < TWO_64 && 0 <= d < n && IsUint64(index) && Regular(index, n)
    ensures ScanPosition(index, d, n) == (index + d) % n
  {
    if index + d < TWO_64 {
      PositionBeforeWrap(index, d, n);
    } else {
      PositionAfterWrap(index, d, n);
      var k := TWO_64 / n;
      assert TWO_64 == k * n;
      RemainderIsUnique(index + d, n, k, index + d - TWO_64);
    }
  }

  /** The offset at which position `p` comes up in a cyclic walk from `index`. */
  function Distance(index: int, p: int, n: int): (d: int)
    requires n > 0
    ensures 0 <= d < n
  {
    (p - index) % n
  }

  lemma DistanceReaches(index: int, p: int, n: int, d: int)
    requires 0 <= p < n && 0 <= d < n
    ensures (index + d) % n == p <==> d == Distance(index, p, n)
  {
    var k := (p - index) / n;
    assert p - index == k * n + Distance(index, p, n);
    RemainderIsUnique(index + Distance(index, p, n), n, -k, p);
    if (index + d) % n == p {
      var j := (index + d) / n;
      assert index + d == j * n + p;
      RemainderIsUnique(p - index, n, -j, d);
    }
  }

  /** One call looks at every instance exactly when its scan does not pass the end of the 64-bit range, or the list
      length divides 2^64. */
  lemma ScanCoversIff(index: int, n: int)
    requires 0 < n < TWO_64 && IsUint64(index)
    ensures Covers(index, n) <==> Regular(index, n)
  {
    if Regular(index, n) {
      forall p | 0 <= p < n ensures Visits(index, n, p) {
        var d := Distance(index, p, n);
        DistanceReaches(index, p, n, d);
        PositionWhenRegular(index, d, n);
        assert ScanPosition(index, d, n) == p;
      }
    } else {
      var p := MissedPosition(index, n);
    }
  }

  /** Where a scan that wraps is at offset `d`: on the wrapped part it counts from 0, before that it is `c - before + d`
      round the list, `c` being what 2^64 leaves over. */
  lemma PositionRoundEnd(index: int, d: int, n: int)
    requires 0 < n < TWO_64 && IsUint64(index) && TWO_64 < index + n && 0 <= d < n
    ensures var before, c := TWO_64 - index, TWO_64 % n;
      ScanPosition(index, d, n) ==
      if d >= before then d - before else if c - before + d >= 0 then c - before + d else c - before + d + n
  {
    var before, c, k := TWO_64 - index, TWO_64 % n, TWO_64 / n;
    assert TWO_64 == k * n + c;
    if d >= before {
      PositionAfterWrap(index, d, n);
    } else {
      PositionBeforeWrap(index, d, n);
      var r := c - before + d;
      assert index + d == k * n + r;
      if r >= 0 {
        RemainderIsUnique(index + d, n, k, r);
      } else {
        assert (k - 1) * n == k * n - n;
        RemainderIsUnique(index + d, n, k - 1, r + n);
      }
    }
  }

  /** A scan that wraps misses some position unless the list length divides 2^64. */
  lemma MissedPosition(index: int, n: int) returns (p: int)
    requires 0 < n < TWO_64 && IsUint64(index) && !Regular(index, n)
    ensures 0 <= p < n && !Visits(index, n, p)
  {
    var before, c := TWO_64 - index, TWO_64 % n;
    assert 0 < c < n;
    p := if c >= before then n - 1 else if n - before < c then c else n - before;
    forall d | 0 <= d < n ensures ScanPosition(index, d, n) != p {
      PositionRoundEnd(index, d, n);
    }
  }

  /** An error is returned exactly when no instance is routable, for every health state, if and only if the scan
      covers the list. */
  lemma ErrorIffNoneReadyIff(index: int, n: int)
    requires 0 < n < TWO_64 && IsUint64(index)
    ensures (forall ready: seq<bool> :: |ready| == n ==> (FirstReady(ready, index, 0) == None <==> true !in ready))
      <==> Regular(index, n)
  {
    ScanCoversIff(index, n);
    if Covers(index, n) {
      forall ready: seq<bool> | |ready| == n ensures FirstReady(ready, index, 0) == None <==> true !in ready {
        CoveringScanFinds(ready, index);
      }
    } else {
      var p := MissedPosition(index, n);
      MissedIsNotFound(index, n, p);
      assert Only(p, n)[p];
    }
  }

  /** Position `p` is the only routable one. */
  function Only(p: int, n: int): (ready: seq<bool>)
    requires 0 <= p < n
    ensures |ready| == n && forall i :: 0 <= i < n ==> (ready[i] <==> i == p)
  {
    seq(n, i => i == p)
  }

  lemma MissedIsNotFound(index: int, n: int, p: int)
    requires 0 <= p < n && !Visits(index, n, p)
    ensures FirstReady(Only(p, n), index, 0) == None
  {
    var _ := FirstReadyIsFirst(Only(p, n), index, 0);
  }

  lemma CoveringScanFinds(ready: seq<bool>, index: int)
    requires ready != [] && Covers(index, |ready|)
    ensures FirstReady(ready, index, 0) == None <==> true !in ready
  {
    var _ := FirstReadyIsFirst(ready, index, 0);
    if true in ready {
      var p :| 0 <= p < |ready| && ready[p];
      assert Visits(index, |ready|, p);
    }
  }

  // Fairness over consecutive calls.

  /** The position `e + 1` steps before `p`, going backwards round the list. */
  function Behind(p: int, e: int, n: int): (q: int)
    requires n > 0
    ensures 0 <= q < n
  {
    (p - 1 - e) % n
  }

  /** How many positions directly before `p`, going backwards round the list, are not ready; counted from the
      `d`-th one. */
  function GapFrom(ready: seq<bool>, p: int, d: int): (g: int)
    requires 0 <= p < |ready| && 0 <= d < |ready|
    ensures d <= g < |ready|
    ensures forall e :: d <= e < g ==> !ready[Behind(p, e, |ready|)]
    ensures g < |ready| - 1 ==> ready[Behind(p, g, |ready|)]
    decreases |ready| - d
  {
    if d == |ready| - 1 || ready[Behind(p, d, |ready|)] then d
    else GapFrom(ready, p, d + 1)
  }

  function Gap(ready: seq<bool>, p: int): int
    requires 0 <= p < |ready|
  {
    GapFrom(ready, p, 0)
  }

  /** A call picks `p` exactly when `p` is ready and the cursor lies at most the gap before it. */
  lemma PickedIff(ready: seq<bool>, index: int, p: int)
    requires 0 <= p < |ready| < TWO_64 && IsUint64(index) && Regular(index, |ready|)
    ensures FirstReady(ready, index, 0) == Some(p) <==> ready[p] && Distance(index, p, |ready|) <= Gap(ready, p)
  {
    var n, far := |ready|, Distance(index, p, |ready|);
    var d := FirstReadyIsFirst(ready, index, 0);
    DistanceReaches(index, p, n, far);
    PositionWhenRegular(index, far, n);
    if FirstReady(ready, index, 0) == Some(p) {
      PositionWhenRegular(index, d, n);
      DistanceReaches(index, p, n, d);
      GapReaches(ready, index, p);
    } else if ready[p] && far <= Gap(ready, p) {
      GapReaches(ready, index, p);
    }
  }

  /** The gap reaches back to the cursor exactly when no position scanned before `p` is ready. */
  lemma GapReaches(ready: seq<bool>, index: int, p: int)
    requires 0 <= p < |ready| < TWO_64 && IsUint64(index) && Regular(index, |ready|)
    ensures Distance(index, p, |ready|) <= Gap(ready, p)
      <==> forall e :: 0 <= e < Distance(index, p, |ready|) ==> !ready[ScanPosition(index, e, |ready|)]
  {
    var n, far, gap := |ready|, Distance(index, p, |ready|), Gap(ready, p);
    if far <= gap {
      forall e | 0 <= e < far ensures !ready[ScanPosition(index, e, n)] {
        StepBack(index, p, n, e);
      }
    } else {
      StepBack(index, p, n, far - 1 - gap);
    }
  }

  lemma StepBack(index: int, p: int, n: int, e: int)
    requires 0 <= p < n < TWO_64 && IsUint64(index) && Regular(index, n) && 0 <= e < Distance(index, p, n)
    ensures ScanPosition(index, e, n) == Behind(p, Distance(index, p, n) - 1 - e, n)
  {
    var far, k := Distance(index, p, n), (p - index) / n;
    PositionWhenRegular(index, e, n);
    assert p - index == k * n + far;
    var j, r := (index + e) / n, (index + e) % n;
    assert index + e == j * n + r;
    assert p - far + e == (k + j) * n + r by {
      assert (k + j) * n == k * n + j * n;
    }
    RemainderIsUnique(p - far + e, n, k + j, r);
  }

  /** How many of the `length` cursor values from `start` on pick position `p`; the cursor wraps. */
  function Picks(ready: seq<bool>, start: int, length: nat, p: int): nat
    requires ready != []
  {
    if length == 0 then 0
    else Picks(ready, start, length - 1, p) + if Picked(ready, start, length - 1, p) then 1 else 0
  }

  predicate Picked(ready: seq<bool>, start: int, j: nat, p: int)
    requires ready != []
  {
    FirstReady(ready, (start + j) % TWO_64, 0) == Some(p)
  }

  /** How many of the first `m` values of j satisfy `(r - j) mod n <= g`. */
  function Hits(r: int, g: int, n: int, m: int): int {
    var low := if r > g then r - g else 0;
    var upTo := if m < r + 1 then m else r + 1;
    (if upTo > low then upTo - low else 0) + (if m > r + n - g then m - (r + n - g) else 0)
  }

  /** Every scan of n consecutive calls is regular. */
  predicate RegularRun(start: int, n: int)
    requires n > 0
  {
    start + 2 * n - 1 <= TWO_64 || TWO_64 % n == 0
  }

  lemma {:induction false} PicksSoFar(ready: seq<bool>, start: int, length: nat, p: int)
    requires 0 <= p < |ready| < TWO_64 && ready[p] && length <= |ready| && IsUint64(start) && RegularRun(start, |ready|)
    ensures Picks(ready, start, length, p) == Hits(Distance(start, p, |ready|), Gap(ready, p), |ready|, length)
  {
    if length > 0 {
      PicksSoFar(ready, start, length - 1, p);
      CursorLater(start, p, |ready|, length - 1);
      PickedIff(ready, (start + length - 1) % TWO_64, p);
    }
  }

  /** The cursor value of the j-th call, wrapped or not, lies as far before `p` as if it had not wrapped. */
  lemma CursorLater(start: int, p: int, n: int, j: int)
    requires 0 <= j < n < TWO_64 && IsUint64(start) && RegularRun(start, n)
    ensures var cursor, r := (start + j) % TWO_64, Distance(start, p, n);
      && IsUint64(cursor) && Regular(cursor, n)
      && Distance(cursor, p, n) == if j <= r then r - j else r - j + n
  {
    DistanceLater(start, p, n, j);
    if start + j < TWO_64 {
      RemainderIsUnique(start + j, TWO_64, 0, start + j);
    } else {
      RemainderIsUnique(start + j, TWO_64, 1, start + j - TWO_64);
      DistanceAcrossWrap(start + j, p, n);
    }
  }

  lemma DistanceAcrossWrap(x: int, p: int, n: int)
    requires 0 < n && TWO_64 % n == 0
    ensures Distance(x - TWO_64, p, n) == Distance(x, p, n)
  {
    var far, k, m := Distance(x, p, n), (p - x) / n, TWO_64 / n;
    assert p - x == k * n + far && TWO_64 == m * n;
    assert p - (x - TWO_64) == (k + m) * n + far by {
      assert (k + m) * n == k * n + m * n;
    }
    RemainderIsUnique(p - (x - TWO_64), n, k + m, far);
  }

  lemma DistanceLater(start: int, p: int, n: int, j: int)
    requires 0 <= j < n
    ensures var r := Distance(start, p, n); Distance(start + j, p, n) == if j <= r then r - j else r - j + n
  {
    var r, k := Distance(start, p, n), (p - start) / n;
    assert p - start == k * n + r;
    if j <= r {
      RemainderIsUnique(p - (start + j), n, k, r - j);
    } else {
      assert p - (start + j) == (k - 1) * n + (r - j + n) by {
        assert (k - 1) * n == k * n - n;
      }
      RemainderIsUnique(p - (start + j), n, k - 1, r - j + n);
    }
  }

  /** Over any n consecutive cursor values of an n-element list, a routable instance is picked once for itself and
      once for each unroutable instance directly before it; an unroutable one is never picked. */
  lemma FairShare(ready: seq<bool>, start: int, p: int)
    requires 0 <= p < |ready| < TWO_64 && IsUint64(start) && RegularRun(start, |ready|)
    ensures Picks(ready, start, |ready|, p) == Share(ready, p)
  {
    if ready[p] {
      PicksSoFar(ready, start, |ready|, p);
    } else {
      NeverPicked(ready, start, |ready|, p);
    }
  }

  function Share(ready: seq<bool>, p: int): int
    requires 0 <= p < |ready|
  {
    if ready[p] then 1 + Gap(ready, p) else 0
  }

  /** The calls from `start` on are fair, whatever is routable, exactly when none of their scans passes the end of the
      64-bit range or the list length divides 2^64. */
  lemma FairShareIff(start: int, n: int)
    requires 0 < n < TWO_64 && IsUint64(start)
    ensures (forall ready: seq<bool>, p :: |ready| == n && 0 <= p < n ==> Picks(ready, start, n, p) == Share(ready, p))
      <==> RegularRun(start, n)
  {
    if RegularRun(start, n) {
      forall ready: seq<bool>, p | |ready| == n && 0 <= p < n ensures Picks(ready, start, n, p) == Share(ready, p) {
        FairShare(ready, start, p);
      }
    } else {
      var j := if start + n - 1 < TWO_64 then n - 1 else TWO_64 - 1 - start;
      var cursor := start + j;
      RemainderIsUnique(cursor, TWO_64, 0, cursor);
      var p := MissedPosition(cursor, n);
      MissedIsNotFound(cursor, n, p);
      OnlyHasFullGap(p, n);
      NotAllPicked(Only(p, n), start, n, p, j);
    }
  }

  lemma OnlyHasFullGap(p: int, n: int)
    requires 0 <= p < n
    ensures Gap(Only(p, n), p) == n - 1
  {
    var g := Gap(Only(p, n), p);
    if g < n - 1 {
      var q := if p - 1 - g >= 0 then p - 1 - g else p - 1 - g + n;
      RemainderIsUnique(p - 1 - g, n, if p - 1 - g >= 0 then 0 else -1, q);
    }
  }

  lemma {:induction false} NotAllPicked(ready: seq<bool>, start: int, length: nat, p: int, j: nat)
    requires ready != [] && j < length && !Picked(ready, start, j, p)
    ensures Picks(ready, start, length, p) < length
  {
    if j < length - 1 {
      NotAllPicked(ready, start, length - 1, p, j);
    } else {
      PicksAtMost(ready, start, length - 1, p);
    }
  }

  lemma {:induction false} PicksAtMost(ready: seq<bool>, start: int, length: nat, p: int)
    requires ready != []
    ensures Picks(ready, start, length, p) <= length
  {
    if length > 0 {
      PicksAtMost(ready, start, length - 1, p);
    }
  }

  lemma {:induction false} NeverPicked(ready: seq<bool>, start: int, length: nat, p: int)
    requires 0 <= p < |ready| && !ready[p]
    ensures Picks(ready, start, length, p) == 0
  {
    if length > 0 {
      NeverPicked(ready, start, length - 1, p);
    }
  }
}
