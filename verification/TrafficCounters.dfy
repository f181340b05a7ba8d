/**
  * The counters of one service under concurrent `Start`, done and `StatusFor` calls
  * (`internal/pool/traffic/record.go`): each atomic load or addition is one step.
  */
module TrafficCounters {

  /** A request between the additions of `Start` and those of `finish`. */
  datatype Phase = Arrived | Entered | Running | Leaving | Finished

  /** A `StatusFor` call, which loads finished, then in-flight, then started. */
  datatype Reader =
    | Begun
    | SawFinished(finished: nat)
    | SawInFlight(finished: nat, inFlight: int)
    | Reported(finished: nat, inFlight: int, started: nat)

  datatype State = State(inFlight: int, started: nat, finished: nat, requests: map<nat, Phase>, readers: map<nat, Reader>)

  const Initial := State(0, 0, 0, map[], map[])

  /** `Done` is a call of the completion function or the next step of one under way; it may come any number of times. */
  datatype Action = Arrive(id: nat) | Start(id: nat) | Done(id: nat) | Read(id: nat)

  function Step(s: State, action: Action): State {
    match action
    case Arrive(id) => if id in s.requests then s else s.(requests := s.requests[id := Arrived])
    case Start(id) =>
      if id !in s.requests then s else (
        match s.requests[id]
        case Arrived => s.(inFlight := s.inFlight + 1, requests := s.requests[id := Entered])
        case Entered => s.(started := s.started + 1, requests := s.requests[id := Running])
        case _ => s)
    case Done(id) =>
      if id !in s.requests then s else (
        match s.requests[id]
        case Running => s.(inFlight := s.inFlight - 1, requests := s.requests[id := Leaving])
        case Leaving => s.(finished := s.finished + 1, requests := s.requests[id := Finished])
        case _ => s)
    case Read(id) =>
      var reader := if id in s.readers then s.readers[id] else Begun;
      s.(readers := s.readers[id :=
        match reader
        case Begun => SawFinished(s.finished)
        case SawFinished(finished) => SawInFlight(finished, s.inFlight)
        case SawInFlight(finished, inFlight) => Reported(finished, inFlight, s.started)
        case Reported(_, _, _) => reader])
  }

  function Run(actions: seq<Action>): State {
    if actions == [] then Initial else Step(Run(actions[..|actions| - 1]), actions[|actions| - 1])
  }

  function In(requests: map<nat, Phase>, phases: set<Phase>): set<nat> {
    set id | id in requests && requests[id] in phases
  }

  lemma SizeAfterUpdate(requests: map<nat, Phase>, id: nat, phase: Phase, phases: set<Phase>)
    ensures |In(requests[id := phase], phases)| == |In(requests, phases)|
      + (if phase in phases then 1 else 0) - (if id in requests && requests[id] in phases then 1 else 0)
  {
    var before, after := In(requests, phases), In(requests[id := phase], phases);
    if phase in phases {
      assert after == before + {id};
    } else {
      assert after == before - {id};
    }
  }

  ghost predicate CountsInv(s: State) {
    && s.inFlight == |In(s.requests, {Entered, Running})|
    && s.started == |In(s.requests, {Running, Leaving, Finished})|
    && s.finished == |In(s.requests, {Finished})|
  }

  ghost predicate ReaderInv(s: State, reader: Reader) {
    match reader
    case Begun => true
    case SawFinished(finished) => finished <= s.finished
    case SawInFlight(finished, inFlight) => finished <= s.finished && inFlight >= 0
    case Reported(finished, inFlight, started) => finished <= started <= s.started && inFlight >= 0
  }

  ghost predicate Inv(s: State) {
    CountsInv(s) && forall id :: id in s.readers ==> ReaderInv(s, s.readers[id])
  }

  lemma StepKeepsCounts(s: State, action: Action)
    requires CountsInv(s)
    ensures CountsInv(Step(s, action))
    ensures s.started <= Step(s, action).started && s.finished <= Step(s, action).finished
  {
    var t := Step(s, action);
    if t.requests != s.requests {
      SizeAfterUpdate(s.requests, action.id, t.requests[action.id], {Entered, Running});
      SizeAfterUpdate(s.requests, action.id, t.requests[action.id], {Running, Leaving, Finished});
      SizeAfterUpdate(s.requests, action.id, t.requests[action.id], {Finished});
    }
  }

  lemma SizesAdd(requests: map<nat, Phase>, some: set<Phase>, others: set<Phase>)
    requires some !! others
    ensures |In(requests, some + others)| == |In(requests, some)| + |In(requests, others)|
  {
    var a, b := In(requests, some), In(requests, others);
    assert a !! b;
    assert In(requests, some + others) == a + b;
  }

  lemma FinishedNeverExceedsStarted(s: State)
    requires CountsInv(s)
    ensures s.inFlight >= 0 && s.finished <= s.started
    ensures s.started + |In(s.requests, {Entered})| == s.finished + s.inFlight + |In(s.requests, {Leaving})|
  {
    SizesAdd(s.requests, {Entered}, {Running});
    SizesAdd(s.requests, {Running}, {Leaving});
    SizesAdd(s.requests, {Running} + {Leaving}, {Finished});
    assert {Running} + {Leaving} + {Finished} == {Running, Leaving, Finished} && {Entered} + {Running} == {Entered, Running};
  }

  lemma {:induction false} RunKeepsInv(actions: seq<Action>)
    ensures Inv(Run(actions))
  {
    if actions != [] {
      var before := Run(actions[..|actions| - 1]);
      RunKeepsInv(actions[..|actions| - 1]);
      StepKeepsCounts(before, actions[|actions| - 1]);
      FinishedNeverExceedsStarted(before);
    }
  }

  /** No request is inside `Start` or inside `finish`. */
  predicate Quiescent(s: State) {
    forall id :: id in s.requests ==> s.requests[id] in {Arrived, Running, Finished}
  }

  /** In every interleaving: nothing negative, every request counted at most once however often done is called,
      and started equals finished plus in flight whenever no counter update is half way. */
  lemma CountersAgree(actions: seq<Action>)
    ensures var s := Run(actions);
      && s.inFlight >= 0 && s.finished <= s.started
      && s.finished == |In(s.requests, {Finished})|
      && (Quiescent(s) ==> s.started == s.finished + s.inFlight)
  {
    RunKeepsInv(actions);
    var s := Run(actions);
    FinishedNeverExceedsStarted(s);
    if Quiescent(s) {
      assert In(s.requests, {Entered}) == {} && In(s.requests, {Leaving}) == {};
    }
  }

  /** Whatever runs between its loads, a status reports no more finished than started requests. */
  lemma StatusIsConsistent(actions: seq<Action>, reader: nat)
    requires reader in Run(actions).readers && Run(actions).readers[reader].Reported?
    ensures var status := Run(actions).readers[reader]; status.finished <= status.started && status.inFlight >= 0
  {
    RunKeepsInv(actions);
  }

  lemma Extend(actions: seq<Action>, s: State, action: Action) returns (longer: seq<Action>, next: State)
    requires s == Run(actions)
    ensures longer == actions + [action] && next == Step(s, action) == Run(longer)
  {
    longer, next := actions + [action], Step(s, action);
    assert longer[..|actions|] == actions;
  }

  lemma StartSteps(s: State, id: nat)
    requires id !in s.requests
    ensures Step(Step(Step(s, Arrive(id)), Start(id)), Start(id)) ==
      s.(inFlight := s.inFlight + 1, started := s.started + 1, requests := s.requests[id := Running])
  {
    var s1 := s.(requests := s.requests[id := Arrived]);
    var s2 := s.(inFlight := s.inFlight + 1, requests := s.requests[id := Entered]);
    assert Step(s, Arrive(id)) == s1 && Step(s1, Start(id)) == s2;
  }

  lemma DoneSteps(s: State, id: nat)
    requires id in s.requests && s.requests[id] == Running
    ensures var done := Step(Step(s, Done(id)), Done(id));
      && done == s.(inFlight := s.inFlight - 1, finished := s.finished + 1, requests := s.requests[id := Finished])
      && Step(done, Done(id)) == done
  {
    var s1 := s.(inFlight := s.inFlight - 1, requests := s.requests[id := Leaving]);
    assert Step(s, Done(id)) == s1;
  }

  /** One request on its own, after any run: its start is counted, its done takes it from in flight to finished, and
      further calls of done change nothing. */
  lemma RequestIsCounted(actions: seq<Action>, id: nat)
    requires id !in Run(actions).requests
    ensures var s := Run(actions);
      var started := Run(actions + [Arrive(id), Start(id), Start(id)]);
      var done := Run(actions + [Arrive(id), Start(id), Start(id), Done(id), Done(id)]);
      && started.started == s.started + 1 && started.inFlight == s.inFlight + 1 && started.finished == s.finished
      && done.started == s.started + 1 && done.inFlight == s.inFlight && done.finished == s.finished + 1
      && Run(actions + [Arrive(id), Start(id), Start(id), Done(id), Done(id), Done(id)]) == done
  {
    var started := ThreeMore(actions, Arrive(id), Start(id), Start(id));
    StartSteps(Run(actions), id);
    var done := ThreeMore(started, Done(id), Done(id), Done(id));
    DoneSteps(Run(started), id);
    assert started == actions + [Arrive(id), Start(id), Start(id)];
    assert started + [Done(id), Done(id)] == actions + [Arrive(id), Start(id), Start(id), Done(id), Done(id)];
    assert done == actions + [Arrive(id), Start(id), Start(id), Done(id), Done(id), Done(id)];
  }

  lemma ThreeMore(actions: seq<Action>, x: Action, y: Action, z: Action) returns (longer: seq<Action>)
    ensures longer == actions + [x, y, z]
    ensures Run(actions + [x, y]) == Step(Step(Run(actions), x), y)
    ensures Run(longer) == Step(Step(Step(Run(actions), x), y), z)
  {
    var a1, s1 := Extend(actions, Run(actions), x);
    var a2, s2 := Extend(a1, s1, y);
    var a3, s3 := Extend(a2, s2, z);
    assert a2 == actions + [x, y];
    longer := actions + [x, y, z];
    assert a3 == longer;
  }

  /** After the first `i` steps the counter had this value. */
  ghost predicate FinishedWas(actions: seq<Action>, i: int, value: nat) {
    0 <= i <= |actions| && Run(actions[..i]).finished == value
  }

  ghost predicate InFlightWas(actions: seq<Action>, i: int, value: int) {
    0 <= i <= |actions| && Run(actions[..i]).inFlight == value
  }

  ghost predicate StartedWas(actions: seq<Action>, i: int, value: nat) {
    0 <= i <= |actions| && Run(actions[..i]).started == value
  }

  /** What a status reports were the counters' values, loaded one after the other. */
  ghost predicate Loaded(actions: seq<Action>, reader: Reader) {
    match reader
    case Begun => true
    case SawFinished(finished) => exists i :: FinishedWas(actions, i, finished)
    case SawInFlight(finished, inFlight) =>
      exists i, j :: i <= j && FinishedWas(actions, i, finished) && InFlightWas(actions, j, inFlight)
    case Reported(finished, inFlight, started) =>
      exists i, j, k :: i <= j <= k
        && FinishedWas(actions, i, finished) && InFlightWas(actions, j, inFlight) && StartedWas(actions, k, started)
  }

  lemma EarlierStays(actions: seq<Action>, action: Action, i: nat)
    requires i <= |actions|
    ensures Run((actions + [action])[..i]) == Run(actions[..i])
  {
    assert (actions + [action])[..i] == actions[..i];
  }

  lemma LoadedStays(actions: seq<Action>, action: Action, reader: Reader)
    requires Loaded(actions, reader)
    ensures Loaded(actions + [action], reader)
  {
    match reader
    case Begun =>
    case SawFinished(finished) =>
      var i :| FinishedWas(actions, i, finished);
      EarlierStays(actions, action, i);
      assert FinishedWas(actions + [action], i, finished);
    case SawInFlight(finished, inFlight) =>
      var i, j :| i <= j && FinishedWas(actions, i, finished) && InFlightWas(actions, j, inFlight);
      EarlierStays(actions, action, i);
      EarlierStays(actions, action, j);
      assert FinishedWas(actions + [action], i, finished) && InFlightWas(actions + [action], j, inFlight);
    case Reported(finished, inFlight, started) =>
      var i, j, k :| i <= j <= k
        && FinishedWas(actions, i, finished) && InFlightWas(actions, j, inFlight) && StartedWas(actions, k, started);
      EarlierStays(actions, action, i);
      EarlierStays(actions, action, j);
      EarlierStays(actions, action, k);
      assert FinishedWas(actions + [action], i, finished) && InFlightWas(actions + [action], j, inFlight);
      assert StartedWas(actions + [action], k, started);
  }

  /** A load after the whole run. */
  lemma LoadNow(actions: seq<Action>)
    ensures var s, n := Run(actions), |actions|;
      FinishedWas(actions, n, s.finished) && InFlightWas(actions, n, s.inFlight) && StartedWas(actions, n, s.started)
  {
    assert actions[..|actions|] == actions;
  }

  /** One more load. */
  lemma ReadLoads(actions: seq<Action>, id: nat)
    requires id in Run(actions).readers ==> Loaded(actions, Run(actions).readers[id])
    ensures id in Step(Run(actions), Read(id)).readers
    ensures Loaded(actions, Step(Run(actions), Read(id)).readers[id])
  {
    var s := Run(actions);
    LoadNow(actions);
    if id in s.readers && s.readers[id].SawFinished? {
      InFlightLoads(actions, s.readers[id].finished, s.inFlight);
    } else if id in s.readers && s.readers[id].SawInFlight? {
      StartedLoads(actions, s.readers[id].finished, s.readers[id].inFlight, s.started);
    }
  }

  lemma InFlightLoads(actions: seq<Action>, finished: nat, inFlight: int)
    requires Loaded(actions, SawFinished(finished)) && InFlightWas(actions, |actions|, inFlight)
    ensures Loaded(actions, SawInFlight(finished, inFlight))
  {
    var i :| FinishedWas(actions, i, finished);
    assert i <= |actions| && FinishedWas(actions, i, finished) && InFlightWas(actions, |actions|, inFlight);
  }

  lemma StartedLoads(actions: seq<Action>, finished: nat, inFlight: int, started: nat)
    requires Loaded(actions, SawInFlight(finished, inFlight)) && StartedWas(actions, |actions|, started)
    ensures Loaded(actions, Reported(finished, inFlight, started))
  {
    var i, j :| i <= j && FinishedWas(actions, i, finished) && InFlightWas(actions, j, inFlight);
    assert i <= j <= |actions| && FinishedWas(actions, i, finished) && InFlightWas(actions, j, inFlight)
      && StartedWas(actions, |actions|, started);
  }

  lemma {:induction false} ReportsWereLoaded(actions: seq<Action>, id: nat)
    requires id in Run(actions).readers
    ensures Loaded(actions, Run(actions).readers[id])
  {
    var before, last := actions[..|actions| - 1], actions[|actions| - 1];
    assert before + [last] == actions;
    if id in Run(before).readers {
      ReportsWereLoaded(before, id);
      LoadedStays(before, last, Run(before).readers[id]);
    }
    if last == Read(id) {
      ReadLoads(before, id);
      LoadedStays(before, last, Run(actions).readers[id]);
    }
  }
}
