/**
  * One ring bucket under concurrent `bucketAdd` calls (`internal/pool/traffic/record.go`): every load, store,
  * atomic addition and lock operation is a step of its own, and the first check takes no lock.
  */
module TrafficBucketSteps {
  import opened Wrappers

  datatype Pc = Checking | FastAdd | Waiting | Rechecking | Zeroing | LockedAdd | Unlocking | Done

  datatype Adder = Adder(second: int, pc: Pc)

  /** Beside the bucket's fields, two measures for its last zeroing: `strays` counts the unlocked additions after it
      that were meant for another second, `lost` the additions before it that were meant for the present one. */
  datatype State = State(second: int, requests: nat, holder: Option<nat>, adders: map<nat, Adder>, strays: nat, lost: nat)

  const Initial := State(0, 0, None, map[], 0, 0)

  datatype Action = Begin(id: nat, second: int) | Advance(id: nat)

  /** One atomic step. A step that is not possible in `s` leaves it alone. */
  function Step(s: State, action: Action): State {
    match action
    case Begin(id, second) =>
      if id in s.adders then s else s.(adders := s.adders[id := Adder(second, Checking)])
    case Advance(id) =>
      if id !in s.adders then s else
      var adder := s.adders[id];
      match adder.pc
      case Checking => Move(s, id, if s.second == adder.second then FastAdd else Waiting)
      case FastAdd =>
        Move(s.(requests := s.requests + 1, strays := s.strays + if s.second == adder.second then 0 else 1), id, Done)
      case Waiting => if s.holder == None then Move(s.(holder := Some(id)), id, Rechecking) else s
      case Rechecking =>
        if s.second != adder.second then Move(s.(second := adder.second), id, Zeroing) else Move(s, id, LockedAdd)
      case Zeroing => Move(s.(requests := 0, strays := 0, lost := |Added(s)|), id, LockedAdd)
      case LockedAdd => Move(s.(requests := s.requests + 1), id, Unlocking)
      case Unlocking => Move(s.(holder := None), id, Done)
      case Done => s
  }

  function Move(s: State, id: nat, pc: Pc): State
    requires id in s.adders
  {
    s.(adders := s.adders[id := s.adders[id].(pc := pc)])
  }

  function Run(actions: seq<Action>): State {
    if actions == [] then Initial else Step(Run(actions[..|actions| - 1]), actions[|actions| - 1])
  }

  predicate HoldsLock(pc: Pc) {
    pc.Rechecking? || pc.Zeroing? || pc.LockedAdd? || pc.Unlocking?
  }

  /** The calls begun for `second`. */
  function Begun(s: State, second: int): set<nat> {
    set id | id in s.adders && s.adders[id].second == second
  }

  /** The calls for the bucket's present second whose addition is behind them. */
  function Added(s: State): set<nat> {
    set id | id in s.adders && s.adders[id].second == s.second && HasAdded(s.adders[id].pc)
  }

  predicate HasAdded(pc: Pc) {
    pc.Unlocking? || pc.Done?
  }

  predicate MidRotation(s: State) {
    s.holder.Some? && s.holder.value in s.adders && s.adders[s.holder.value].pc.Zeroing?
  }

  ghost predicate LockInv(s: State) {
    && (forall id :: id in s.adders && HoldsLock(s.adders[id].pc) ==> s.holder == Some(id))
    && (s.holder.Some? ==> s.holder.value in s.adders && HoldsLock(s.adders[s.holder.value].pc))
  }

  ghost predicate SecondInv(s: State) {
    forall id :: id in s.adders && (s.adders[id].pc.Zeroing? || s.adders[id].pc.LockedAdd?) ==> s.adders[id].second == s.second
  }

  predicate CountInv(s: State) {
    !MidRotation(s) ==> s.requests + s.lost == |Added(s)| + s.strays
  }

  ghost predicate Inv(s: State) {
    LockInv(s) && SecondInv(s) && CountInv(s)
  }

  lemma AddedAfterMove(s: State, t: State, id: nat)
    requires id in s.adders && id in t.adders && t.second == s.second
    requires t.adders == s.adders[id := s.adders[id].(pc := t.adders[id].pc)]
    requires HasAdded(s.adders[id].pc) ==> HasAdded(t.adders[id].pc)
    ensures |Added(t)| == |Added(s)| +
      if s.adders[id].second == s.second && !HasAdded(s.adders[id].pc) && HasAdded(t.adders[id].pc) then 1 else 0
  {
    if s.adders[id].second == s.second && HasAdded(t.adders[id].pc) {
      assert Added(t) == Added(s) + {id};
    } else {
      assert Added(t) == Added(s);
    }
  }

  lemma StepKeepsLock(s: State, action: Action)
    requires LockInv(s) && SecondInv(s)
    ensures LockInv(Step(s, action)) && SecondInv(Step(s, action))
  {
  }

  lemma StepKeepsCount(s: State, action: Action)
    requires Inv(s)
    ensures CountInv(Step(s, action))
  {
    var t := Step(s, action);
    if t == s {
      return;
    }
    var id := action.id;
    if action.Begin? {
      assert Added(t) == Added(s);
      assert MidRotation(s) ==> MidRotation(t);
    } else if t.second != s.second {
      assert MidRotation(t);
    } else {
      AddedAfterMove(s, t, id);
      MidRotationAfterMove(s, t, id);
    }
  }

  lemma MidRotationAfterMove(s: State, t: State, id: nat)
    requires LockInv(s) && SecondInv(s) && id in s.adders && t == Step(s, Advance(id)) && t != s && t.second == s.second
    ensures !s.adders[id].pc.Zeroing? ==> (MidRotation(s) <==> MidRotation(t))
  {
  }

  lemma StepKeepsInv(s: State, action: Action)
    requires Inv(s)
    ensures Inv(Step(s, action))
  {
    StepKeepsLock(s, action);
    StepKeepsCount(s, action);
  }

  lemma {:induction false} RunKeepsInv(actions: seq<Action>)
    ensures Inv(Run(actions))
  {
    if actions != [] {
      RunKeepsInv(actions[..|actions| - 1]);
      StepKeepsInv(Run(actions[..|actions| - 1]), actions[|actions| - 1]);
    }
  }

  /** The exact account, in every interleaving: unless a rotation is half way, what the bucket holds and what was lost
      before its zeroing are together the additions made for its second and the strays. So the count is right exactly
      when strays and lost additions balance, and too high exactly when there are more strays. */
  lemma CountIsExactIff(actions: seq<Action>)
    requires !MidRotation(Run(actions))
    ensures var s := Run(actions);
      && s.requests + s.lost == |Added(s)| + s.strays
      && (s.requests == |Added(s)| <==> s.strays == s.lost)
      && (s.requests > |Added(s)| <==> s.strays > s.lost)
  {
    RunKeepsInv(actions);
  }

  /** In every interleaving, a reader that holds the lock sees at most the calls begun for the bucket's second
      plus the stray additions. */
  lemma OvercountIsStrays(actions: seq<Action>)
    ensures var s := Run(actions); s.holder == None ==> s.requests <= |Begun(s, s.second)| + s.strays
  {
    RunKeepsInv(actions);
    var s := Run(actions);
    assert Added(s) <= Begun(s, s.second);
    SubsetIsSmaller(Added(s), Begun(s, s.second));
  }

  lemma {:induction false} SubsetIsSmaller(a: set<nat>, b: set<nat>)
    requires a <= b
    ensures |a| <= |b|
  {
    if a != {} {
      var x :| x in a;
      SubsetIsSmaller(a - {x}, b - {x});
    }
  }

  /** No call that passed the unlocked check is still about to add. */
  predicate NothingPending(s: State) {
    forall id :: id in s.adders ==> !s.adders[id].pc.FastAdd?
  }

  predicate Rotates(s: State, action: Action) {
    && action.Advance? && action.id in s.adders
    && s.adders[action.id].pc.Rechecking? && s.adders[action.id].second != s.second
  }

  /** Whenever the bucket passes to another second, no unlocked addition is pending. */
  predicate Disciplined(actions: seq<Action>) {
    actions == [] ||
    var before := actions[..|actions| - 1];
    Disciplined(before) && (Rotates(Run(before), actions[|actions| - 1]) ==> NothingPending(Run(before)))
  }

  lemma {:induction false} DisciplinedHasNoStrays(actions: seq<Action>)
    requires Disciplined(actions)
    ensures var s := Run(actions);
      s.strays == 0 && forall id :: id in s.adders && s.adders[id].pc.FastAdd? ==> s.adders[id].second == s.second
  {
    if actions != [] {
      DisciplinedHasNoStrays(actions[..|actions| - 1]);
    }
  }

  /** The bound that holds without strays: the count never exceeds the calls begun for its second. */
  lemma DisciplinedNeverOvercounts(actions: seq<Action>)
    requires Disciplined(actions)
    ensures var s := Run(actions); s.holder == None ==> s.requests <= |Begun(s, s.second)|
  {
    OvercountIsStrays(actions);
    DisciplinedHasNoStrays(actions);
  }

  predicate AddsUnlocked(s: State, action: Action) {
    action.Advance? && action.id in s.adders && s.adders[action.id].pc.FastAdd?
  }

  /** The seconds the bucket has stood for. */
  function Seconds(actions: seq<Action>): set<int> {
    if actions == [] then {Initial.second} else Seconds(actions[..|actions| - 1]) + {Run(actions).second}
  }

  /** Disciplined; besides, the bucket never returns to a second it has left, and no unlocked addition comes between
      the store of a new second and the zeroing. */
  predicate Clean(actions: seq<Action>) {
    actions == [] ||
    var before, last := actions[..|actions| - 1], actions[|actions| - 1];
    var s := Run(before);
    && Clean(before)
    && (Rotates(s, last) ==> NothingPending(s) && s.adders[last.id].second !in Seconds(before))
    && (AddsUnlocked(s, last) ==> !MidRotation(s))
  }

  /** Additions were made for seconds the bucket has stood for; while it rotates there is none for the new one. */
  ghost predicate CleanInv(s: State, seconds: set<int>) {
    && s.lost == 0 && s.second in seconds
    && (forall id :: id in s.adders && (s.adders[id].pc.FastAdd? || HasAdded(s.adders[id].pc) || s.adders[id].pc.LockedAdd?)
          ==> s.adders[id].second in seconds)
    && (MidRotation(s) ==> Added(s) == {})
  }

  lemma CleanStep(s: State, action: Action, seconds: set<int>)
    requires LockInv(s) && SecondInv(s) && CleanInv(s, seconds)
    requires Rotates(s, action) ==> s.adders[action.id].second !in seconds
    requires AddsUnlocked(s, action) ==> !MidRotation(s)
    ensures CleanInv(Step(s, action), seconds + {Step(s, action).second})
  {
    var t := Step(s, action);
    if MidRotation(t) && !MidRotation(s) {
      assert Rotates(s, action);
      forall id ensures id !in Added(t) {
      }
    } else if MidRotation(t) {
      assert t.second == s.second;
      forall id ensures id !in Added(t) {
        assert id !in Added(s);
      }
    }
  }

  lemma {:induction false} CleanRun(actions: seq<Action>)
    requires Clean(actions)
    ensures CleanInv(Run(actions), Seconds(actions)) && Disciplined(actions)
  {
    if actions != [] {
      var before := actions[..|actions| - 1];
      CleanRun(before);
      RunKeepsInv(before);
      CleanStep(Run(before), actions[|actions| - 1], Seconds(before));
    }
  }

  /** A clean run counts exactly: the additions made for the bucket's second, and so, when none of the calls for it is
      still under way, the calls themselves. */
  lemma CleanRunsCountExactly(actions: seq<Action>)
    requires Clean(actions) && !MidRotation(Run(actions))
    ensures var s := Run(actions);
      && s.requests == |Added(s)|
      && ((forall id :: id in Begun(s, s.second) ==> HasAdded(s.adders[id].pc)) ==> s.requests == |Begun(s, s.second)|)
  {
    CleanRun(actions);
    DisciplinedHasNoStrays(actions);
    CountIsExactIff(actions);
    var s := Run(actions);
    if forall id :: id in Begun(s, s.second) ==> HasAdded(s.adders[id].pc) {
      assert Added(s) == Begun(s, s.second);
    }
  }

  lemma Extend(actions: seq<Action>, s: State, action: Action) returns (longer: seq<Action>, next: State)
    requires s == Run(actions)
    ensures longer == actions + [action] && next == Step(s, action) == Run(longer)
  {
    longer, next := actions + [action], Step(s, action);
    assert longer[..|actions|] == actions;
  }

  /** As many steps of one call. */
  function Steps(id: nat, count: nat): seq<Action> {
    seq(count, _ => Advance(id))
  }

  lemma {:induction false} RunSteps(s: State, actions: seq<Action>, id: nat, count: nat) returns (longer: seq<Action>, next: State)
    requires s == Run(actions)
    ensures longer == actions + Steps(id, count) && next == Run(longer) == After(s, id, count)
  {
    if count == 0 {
      longer, next := actions, s;
      assert actions + Steps(id, 0) == actions;
    } else {
      longer, next := RunSteps(s, actions, id, count - 1);
      longer, next := Extend(longer, next, Advance(id));
      assert Steps(id, count) == Steps(id, count - 1) + [Advance(id)];
      assert longer == actions + Steps(id, count);
    }
  }

  function After(s: State, id: nat, count: nat): State {
    if count == 0 then s else Step(After(s, id, count - 1), Advance(id))
  }

  lemma AfterUnfolds(s: State, id: nat, count: nat)
    requires count > 0
    ensures After(s, id, count) == After(Step(s, Advance(id)), id, count - 1)
  {
    if count > 1 {
      AfterUnfolds(s, id, count - 1);
    }
  }

  /** The unlocked path. */
  lemma FastPath(s: State, id: nat, second: int)
    requires id in s.adders && s.adders[id] == Adder(second, Checking) && s.second == second
    ensures After(s, id, 2) == s.(requests := s.requests + 1, adders := s.adders[id := Adder(second, Done)])
  {
    var s1 := Step(s, Advance(id));
    AfterUnfolds(s, id, 2);
    AfterUnfolds(s1, id, 1);
    assert s1.adders[id] == Adder(second, FastAdd);
  }

  /** From the check to the store of the new second. */
  lemma ToRotation(s: State, id: nat, second: int)
    requires id in s.adders && s.adders[id] == Adder(second, Checking) && s.second != second && s.holder == None
    ensures After(s, id, 3) == s.(second := second, holder := Some(id), adders := s.adders[id := Adder(second, Zeroing)])
  {
    var s1 := s.(adders := s.adders[id := Adder(second, Waiting)]);
    var s2 := s.(holder := Some(id), adders := s.adders[id := Adder(second, Rechecking)]);
    AfterUnfolds(s, id, 3);
    AfterUnfolds(s1, id, 2);
    AfterUnfolds(s2, id, 1);
    assert Step(s, Advance(id)) == s1 && Step(s1, Advance(id)) == s2;
  }

  /** From there to the end. */
  lemma FromRotation(s: State, id: nat, second: int)
    requires id in s.adders && s.adders[id] == Adder(second, Zeroing)
    ensures var next := After(s, id, 3);
      && next.second == s.second && next.holder == None && next.requests == 1
      && next.adders == s.adders[id := Adder(second, Done)]
  {
    var s1 := s.(requests := 0, strays := 0, lost := |Added(s)|, adders := s.adders[id := Adder(second, LockedAdd)]);
    var s2 := s1.(requests := 1, adders := s.adders[id := Adder(second, Unlocking)]);
    var s3 := s2.(holder := None, adders := s.adders[id := Adder(second, Done)]);
    assert Step(s, Advance(id)) == s1;
    assert Step(s1, Advance(id)) == s2;
    assert Step(s2, Advance(id)) == s3;
    AfterUnfolds(s, id, 3);
    AfterUnfolds(s1, id, 2);
    AfterUnfolds(s2, id, 1);
  }

  lemma {:induction false} AfterTwice(s: State, id: nat, first: nat, second: nat)
    ensures After(After(s, id, first), id, second) == After(s, id, first + second)
  {
    if second > 0 {
      AfterTwice(s, id, first, second - 1);
    }
  }

  /** A call that runs alone from start to end, with the bucket's lock free, adds one request to its second: on top of
      those the bucket holds if it stands for that second, or as the first one. */
  lemma LoneCallAddsOne(actions: seq<Action>, id: nat, second: int)
    requires Run(actions).holder == None && id !in Run(actions).adders
    ensures var s, count := Run(actions), if Run(actions).second == second then 2 else 6;
      var next := Run(actions + [Begin(id, second)] + Steps(id, count));
      && next.second == second && next.holder == None
      && next.requests == (if s.second == second then s.requests + 1 else 1)
      && next.adders == s.adders[id := Adder(second, Done)]
  {
    var s := Run(actions);
    var begun, s0 := Extend(actions, s, Begin(id, second));
    if s.second == second {
      var all, next := RunSteps(s0, begun, id, 2);
      FastPath(s0, id, second);
    } else {
      var all, next := RunSteps(s0, begun, id, 6);
      ToRotation(s0, id, second);
      FromRotation(After(s0, id, 3), id, second);
      AfterTwice(s0, id, 3, 3);
    }
    assert s0.adders == s.adders[id := Adder(second, Checking)];
  }

  lemma RotationScript() returns (actions: seq<Action>, s: State)
    ensures s == Run(actions) == State(60, 0, Some(2), map[1 := Adder(0, FastAdd), 2 := Adder(60, Zeroing)], 0, 0)
  {
    actions, s := Extend([], Initial, Begin(1, 0));
    actions, s := Extend(actions, s, Advance(1));  // second 0 is current: the lock is skipped
    actions, s := Extend(actions, s, Begin(2, 60));
    actions, s := Extend(actions, s, Advance(2));
    actions, s := Extend(actions, s, Advance(2));
    actions, s := Extend(actions, s, Advance(2));  // rotation to second 60
  }

  /** Without that discipline one call for second 60 can be counted twice: a call for second 0 that passed the
      unlocked check adds after the rotation. */
  lemma OvercountHappens() returns (actions: seq<Action>)
    ensures var s := Run(actions); s.holder == None && s.second == 60 && s.requests == 2 && |Begun(s, 60)| == 1
  {
    var s;
    actions, s := RotationScript();
    assert Added(s) == {};
    actions, s := Extend(actions, s, Advance(2));
    actions, s := Extend(actions, s, Advance(2));
    actions, s := Extend(actions, s, Advance(2));
    actions, s := Extend(actions, s, Advance(1));  // the stray addition
    assert Begun(s, 60) == {2};
  }

  lemma LosingScript() returns (actions: seq<Action>, s: State)
    ensures s == Run(actions) == State(60, 1, Some(1), map[1 := Adder(60, Zeroing), 2 := Adder(60, Done)], 0, 0)
  {
    actions, s := Extend([], Initial, Begin(1, 60));
    actions, s := Extend(actions, s, Advance(1));
    actions, s := Extend(actions, s, Advance(1));
    actions, s := Extend(actions, s, Advance(1));  // rotation to second 60
    assert s == State(60, 0, Some(1), map[1 := Adder(60, Zeroing)], 0, 0);
    actions, s := Extend(actions, s, Begin(2, 60));
    actions, s := Extend(actions, s, Advance(2));
    actions, s := Extend(actions, s, Advance(2));  // counted before the zeroing
  }

  /** Nor is the count exact: a call that adds between the store of the new second and the zeroing is lost. */
  lemma UndercountHappens() returns (actions: seq<Action>)
    ensures var s := Run(actions); s.second == 60 && s.requests == 1 && |Begun(s, 60)| == 2
    ensures var s := Run(actions); forall id :: id in s.adders ==> s.adders[id].pc.Done?
  {
    var s;
    actions, s := LosingScript();
    actions, s := Extend(actions, s, Advance(1));
    actions, s := Extend(actions, s, Advance(1));
    actions, s := Extend(actions, s, Advance(1));
    assert Begun(s, 60) == {1, 2};
  }
}
