/** The double-checked upgrade of the plan definitions, run by any number of processes of one build. */
module Upgrade {

  import opened Basics

  /** The plan format this build writes, FMT_PLAN_DEFINITION. */
  const FMT_PLAN_DEFINITION := 40

  /** What a read of the stored format yields; the database itself is never `Failed`. */
  datatype Reading = Undefined | Format(format: int) | Failed

  const CURRENT := Format(FMT_PLAN_DEFINITION)

  /** How far a process is in the function. */
  datatype Place =
    | ReadFirst
    | AskForLock
    | ReadAgain
    | BeforeDiscard
    | Discarding
    | BeforeRecord
    | BeforeUnlock
    | CleanUp
    | Returned(ok: bool)
    | Exited

  /** One call of a process into the database and its outcome. */
  datatype Action =
    | Read(p: nat, reading: Reading)
    | Lock(p: nat, ok: bool)
    | StartDiscard(p: nat)
    | EndDiscard(p: nat, ok: bool)
    | Record(p: nat, ok: bool)
    | Unlock(p: nat, ok: bool)
    | Exit(p: nat)

  /** The call a process at a place can make; a process can end at any time. */
  predicate Fits(place: Place, a: Action) {
    match a
    case Read(_, _) => place.ReadFirst? || place.ReadAgain?
    case Lock(_, _) => place.AskForLock?
    case StartDiscard(_) => place.BeforeDiscard?
    case EndDiscard(_, _) => place.Discarding?
    case Record(_, _) => place.BeforeRecord?
    case Unlock(_, _) => place.BeforeUnlock? || place.CleanUp?
    case Exit(_) => !place.Exited?
  }

  function Next(place: Place, a: Action): Place
    requires Fits(place, a)
  {
    match a
    case Read(_, reading) =>
      if reading == Failed then (if place.ReadFirst? then Returned(false) else CleanUp)
      else if reading == CURRENT then Returned(true)
      else if place.ReadFirst? then AskForLock
      else BeforeDiscard
    case Lock(_, ok) => if ok then ReadAgain else Returned(false)
    case StartDiscard(_) => Discarding
    case EndDiscard(_, ok) => if ok then BeforeRecord else CleanUp
    case Record(_, ok) => if ok then BeforeUnlock else CleanUp
    case Unlock(_, ok) => Returned(place.BeforeUnlock? && ok)
    case Exit(_) => Exited
  }

  // ---------------------------------------------------------------------------
  // All processes together
  // ---------------------------------------------------------------------------

  /** History: whether the stored format was current when a process was granted the lock. */
  datatype Grant = Never | Stale | AlreadyCurrent

  datatype State = State(stored: Reading, holder: Option<nat>, places: seq<Place>, grants: seq<Grant>)

  predicate Initial(s: State) {
    && s.stored != Failed && s.holder == None && |s.places| == |s.grants|
    && forall p :: 0 <= p < |s.places| ==> s.places[p] == ReadFirst && s.grants[p] == Never
  }

  /** A read fails or yields what is stored; the lock is granted only while nobody holds it. */
  predicate Enabled(s: State, a: Action) {
    && a.p < |s.places| == |s.grants|
    && Fits(s.places[a.p], a)
    && (a.Read? && a.reading != Failed ==> a.reading == s.stored)
    && (a.Lock? && a.ok ==> s.holder == None)
  }

  function Do(s: State, a: Action): State
    requires Enabled(s, a)
  {
    var t := s.(places := s.places[a.p := Next(s.places[a.p], a)]);
    match a
    case Lock(p, true) =>
      t.(holder := Some(p), grants := s.grants[p := if s.stored == CURRENT then AlreadyCurrent else Stale])
    case Record(_, true) => t.(stored := CURRENT)
    case Unlock(_, true) => t.(holder := None)
    case Exit(p) => if s.holder == Some(p) then t.(holder := None) else t
    case _ => t
  }

  predicate IsRun(s: State, run: seq<Action>)
    decreases |run|
  {
    run == [] || (Enabled(s, run[0]) && IsRun(Do(s, run[0]), run[1..]))
  }

  function Execute(s: State, run: seq<Action>): State
    requires IsRun(s, run)
    decreases |run|
  {
    if run == [] then s else Execute(Do(s, run[0]), run[1..])
  }

  /** Between the locked check and the recording of the format. */
  predicate Upgrading(place: Place) {
    place.BeforeDiscard? || place.Discarding? || place.BeforeRecord?
  }

  /** Places where the lock is held. */
  predicate Locked(place: Place) {
    Upgrading(place) || place.ReadAgain? || place.BeforeUnlock? || place.CleanUp?
  }

  predicate ProcessHolds(s: State, p: nat)
    requires p < |s.places| == |s.grants|
  {
    var place := s.places[p];
    && (Locked(place) ==> s.holder == Some(p) && s.grants[p] != Never)
    && (Upgrading(place) ==> s.stored != CURRENT && s.grants[p] == Stale)
    && (place.ReadAgain? ==> (s.grants[p] == AlreadyCurrent <==> s.stored == CURRENT))
    && (place.BeforeUnlock? ==> s.stored == CURRENT && s.grants[p] == Stale)
    && (place == Returned(true) ==> s.stored == CURRENT && (s.holder == Some(p) <==> s.grants[p] == AlreadyCurrent))
    && (place.ReadFirst? || place.AskForLock? ==> s.holder != Some(p) && s.grants[p] == Never)
    && (place.Exited? ==> s.holder != Some(p))
  }

  ghost predicate Invariant(s: State) {
    && |s.places| == |s.grants| && s.stored != Failed
    && (forall p :: 0 <= p < |s.places| ==> ProcessHolds(s, p))
  }

  lemma StepHolds(s: State, a: Action)
    requires Invariant(s) && Enabled(s, a)
    ensures Invariant(Do(s, a)) && |Do(s, a).places| == |s.places|
  {
    forall q | 0 <= q < |s.places| ensures ProcessHolds(Do(s, a), q) {
      assert ProcessHolds(s, q) && ProcessHolds(s, a.p);
    }
  }

  lemma {:induction false} RunHolds(s: State, run: seq<Action>)
    requires Invariant(s) && IsRun(s, run)
    ensures Invariant(Execute(s, run)) && |Execute(s, run).places| == |s.places|
    decreases |run|
  {
    hide Invariant, Do, Enabled;
    if run != [] {
      StepHolds(s, run[0]);
      RunHolds(Do(s, run[0]), run[1..]);
    }
  }

  lemma {:induction false} RunConcat(s: State, a: seq<Action>, b: seq<Action>)
    ensures IsRun(s, a + b) <==> IsRun(s, a) && IsRun(Execute(s, a), b)
    ensures IsRun(s, a + b) ==> Execute(s, a + b) == Execute(Execute(s, a), b)
    decreases |a|
  {
    hide Enabled, Do;
    if a == [] {
      assert a + b == b;
    } else {
      assert (a + b)[1..] == a[1..] + b;
      if Enabled(s, a[0]) {
        RunConcat(Do(s, a[0]), a[1..], b);
      }
    }
  }

  // ---------------------------------------------------------------------------
  // Safety of the upgrade
  // ---------------------------------------------------------------------------

  /** In every reachable state at most one process is between its locked check and its unlocking, that process
      holds the lock, and whoever has returned successfully did so with its own format stored. */
  lemma ReachableStatesAreSafe(s: State, run: seq<Action>, p: nat, q: nat)
    requires Initial(s) && IsRun(s, run) && p < |s.places| && q < |s.places|
    ensures var t := Execute(s, run);
            && |t.places| == |s.places|
            && (Locked(t.places[p]) && Locked(t.places[q]) ==> p == q)
            && (Locked(t.places[p]) ==> t.holder == Some(p))
            && (Upgrading(t.places[p]) ==> t.stored != CURRENT)
            && (t.places[p] == Returned(true) ==> t.stored == CURRENT)
  {
    RunHolds(s, run);
    assert ProcessHolds(Execute(s, run), p) && ProcessHolds(Execute(s, run), q);
  }

  lemma {:induction false} CurrentStays(s: State, run: seq<Action>)
    requires Invariant(s) && IsRun(s, run) && s.stored == CURRENT
    ensures Execute(s, run).stored == CURRENT
    ensures forall i :: 0 <= i < |run| ==> !run[i].StartDiscard? && !run[i].EndDiscard? && !run[i].Record?
    decreases |run|
  {
    if run != [] {
      StepHolds(s, run[0]);
      assert ProcessHolds(s, run[0].p);
      CurrentStays(Do(s, run[0]), run[1..]);
      assert forall i :: 0 < i < |run| ==> run[i] == run[1..][i - 1];
    }
  }

  /** Once the format is recorded, by whichever process, no discard starts, runs or ends and nothing is recorded
      again: the current format stays. */
  lemma NoDiscardOnceRecorded(s: State, run: seq<Action>, k: nat)
    requires Initial(s) && IsRun(s, run) && k < |run| && run[k].Record? && run[k].ok
    ensures Execute(s, run).stored == CURRENT
    ensures forall i :: k < i < |run| ==> !run[i].StartDiscard? && !run[i].EndDiscard? && !run[i].Record?
  {
    var before, after := run[..k], run[k + 1..];
    assert run == before + ([run[k]] + after);
    RunConcat(s, before, [run[k]] + after);
    RunHolds(s, before);
    var t := Execute(s, before);
    assert ([run[k]] + after)[1..] == after;
    StepHolds(t, run[k]);
    CurrentStays(Do(t, run[k]), after);
    assert forall i :: k < i < |run| ==> run[i] == after[i - k - 1];
  }

  /** The latest start or end of a discard. */
  function LatestDiscard(run: seq<Action>): Option<Action> {
    if run == [] then None
    else var a := run[|run| - 1];
         if a.StartDiscard? || a.EndDiscard? then Some(a) else LatestDiscard(run[..|run| - 1])
  }

  lemma {:induction false} DiscardsAreWhole(s: State, run: seq<Action>, p: nat)
    requires Initial(s) && IsRun(s, run) && p < |s.places|
    ensures |Execute(s, run).places| == |s.places|
    ensures Execute(s, run).places[p].Discarding? ==> LatestDiscard(run) == Some(StartDiscard(p))
    ensures Execute(s, run).places[p].BeforeRecord? ==> LatestDiscard(run) == Some(EndDiscard(p, true))
    decreases |run|
  {
    if run != [] {
      var last := |run| - 1;
      assert run == run[..last] + [run[last]];
      RunConcat(s, run[..last], [run[last]]);
      RunHolds(s, run[..last]);
      DiscardsAreWhole(s, run[..last], p);
      var t := Execute(s, run[..last]);
      assert ProcessHolds(t, p) && ProcessHolds(t, run[last].p);
      assert Execute(s, run) == Do(t, run[last]);
    }
  }

  /** A process records the format only after a discard of its own that ended well, and nobody has begun another
      discard since. */
  lemma RecordFollowsWholeDiscard(s: State, run: seq<Action>, p: nat, ok: bool)
    requires Initial(s) && IsRun(s, run + [Record(p, ok)])
    ensures LatestDiscard(run) == Some(EndDiscard(p, true))
  {
    RunConcat(s, run, [Record(p, ok)]);
    RunHolds(s, run);
    DiscardsAreWhole(s, run, p);
  }

  // ---------------------------------------------------------------------------
  // The lock
  // ---------------------------------------------------------------------------

  /** A process that returned successfully still holds the lock exactly when the stored format was
      already current at the moment it was granted the lock. */
  lemma LockKeptExactlyWhenAlreadyCurrent(s: State, run: seq<Action>, p: nat)
    requires Initial(s) && IsRun(s, run) && p < |s.places|
    ensures var t := Execute(s, run);
            && |t.places| == |t.grants| == |s.places|
            && (t.places[p] == Returned(true) ==> (t.holder == Some(p) <==> t.grants[p] == AlreadyCurrent))
  {
    RunHolds(s, run);
    assert ProcessHolds(Execute(s, run), p);
  }

  /** After a failed call the lock is gone too, unless the call that releases it failed. */
  lemma {:induction false} LockGivenBackOnFailure(s: State, run: seq<Action>, p: nat)
    requires Initial(s) && IsRun(s, run) && p < |s.places| && Unlock(p, false) !in run
    ensures var t := Execute(s, run);
            && |t.places| == |s.places|
            && (t.places[p] == Returned(false) ==> t.holder != Some(p))
    decreases |run|
  {
    if run != [] {
      var last := |run| - 1;
      assert run == run[..last] + [run[last]];
      RunConcat(s, run[..last], [run[last]]);
      RunHolds(s, run[..last]);
      LockGivenBackOnFailure(s, run[..last], p);
      var t := Execute(s, run[..last]);
      assert ProcessHolds(t, p) && ProcessHolds(t, run[last].p);
      assert Execute(s, run) == Do(t, run[last]);
    }
  }

  lemma Stay(s: State)
    ensures IsRun(s, []) && Execute(s, []) == s
  {
  }

  lemma OneMore(s: State, run: seq<Action>, a: Action)
    requires IsRun(s, run) && Enabled(Execute(s, run), a)
    ensures IsRun(s, run + [a]) && Execute(s, run + [a]) == Do(Execute(s, run), a)
  {
    RunConcat(s, run, [a]);
  }

  /** Two processes find no format, and the first of them upgrades. */
  lemma FirstUpgrades(s: State) returns (run: seq<Action>)
    requires s == State(Undefined, None, [ReadFirst, ReadFirst], [Never, Never])
    ensures IsRun(s, run)
    ensures Execute(s, run) == State(CURRENT, Some(0), [BeforeUnlock, AskForLock], [Stale, Never])
  {
    hide IsRun, Execute;
    Stay(s);
    run := [];
    OneMore(s, run, Read(0, Undefined));
    run := run + [Read(0, Undefined)];
    OneMore(s, run, Read(1, Undefined));
    run := run + [Read(1, Undefined)];
    OneMore(s, run, Lock(0, true));
    run := run + [Lock(0, true)];
    OneMore(s, run, Read(0, Undefined));
    run := run + [Read(0, Undefined)];
    OneMore(s, run, StartDiscard(0));
    run := run + [StartDiscard(0)];
    OneMore(s, run, EndDiscard(0, true));
    run := run + [EndDiscard(0, true)];
    OneMore(s, run, Record(0, true));
    run := run + [Record(0, true)];
  }

  /** A run that keeps the lock: the first process unlocks, the second is then granted the lock, finds the format
      current, and returns success with the lock. */
  lemma LockCanBeKept()
    ensures var s := State(Undefined, None, [ReadFirst, ReadFirst], [Never, Never]);
            exists run :: Initial(s) && IsRun(s, run)
              && Execute(s, run)
                 == State(CURRENT, Some(1), [Returned(true), Returned(true)], [Stale, AlreadyCurrent])
  {
    hide IsRun, Execute;
    var s := State(Undefined, None, [ReadFirst, ReadFirst], [Never, Never]);
    var run := FirstUpgrades(s);
    OneMore(s, run, Unlock(0, true));
    run := run + [Unlock(0, true)];
    OneMore(s, run, Lock(1, true));
    run := run + [Lock(1, true)];
    OneMore(s, run, Read(1, CURRENT));
    run := run + [Read(1, CURRENT)];
  }

  /** The lock kept by a process that has returned keeps everyone else out until that process ends: whoever is waiting
      for it can only go on waiting, fail or end, so its call does not succeed. */
  lemma {:induction false} KeptLockShutsOut(s: State, run: seq<Action>, p: nat, q: nat)
    requires Invariant(s) && IsRun(s, run) && p < |s.places| && q < |s.places|
    requires s.places[p].Returned? && s.holder == Some(p)
    requires forall i :: 0 <= i < |run| ==> run[i] != Exit(p)
    requires s.places[q] == AskForLock || s.places[q] == Returned(false) || s.places[q].Exited?
    ensures var t := Execute(s, run);
            && |t.places| == |s.places| && t.holder == Some(p)
            && (t.places[q] == AskForLock || t.places[q] == Returned(false) || t.places[q].Exited?)
    decreases |run|
  {
    if run != [] {
      var a := run[0];
      StepHolds(s, a);
      assert ProcessHolds(s, a.p);
      assert forall i :: 0 <= i < |run[1..]| ==> run[1..][i] == run[i + 1];
      KeptLockShutsOut(Do(s, a), run[1..], p, q);
    }
  }

  // ---------------------------------------------------------------------------
  // One process: the function itself
  // ---------------------------------------------------------------------------

  /** The results the environment gives to the calls of one process. */
  datatype Outcomes = Outcomes(first: Reading, locking: bool, second: Reading, discarding: bool, recording: bool,
                               unlocking: bool)

  /** A process makes the calls `trace`, in that order, and they take it from one place to another. */
  ghost predicate Follows(p: nat, from: Place, trace: seq<Action>, to: Place)
    decreases |trace|
  {
    if trace == [] then from == to
    else trace[0].p == p && Fits(from, trace[0]) && Follows(p, Next(from, trace[0]), trace[1..], to)
  }

  lemma FollowsNothing(p: nat, place: Place)
    ensures Follows(p, place, [], place)
  {
  }

  lemma {:induction false} FollowsOneMore(p: nat, from: Place, trace: seq<Action>, middle: Place, a: Action)
    requires Follows(p, from, trace, middle) && a.p == p && Fits(middle, a)
    ensures Follows(p, from, trace + [a], Next(middle, a))
    decreases |trace|
  {
    if trace != [] {
      FollowsOneMore(p, Next(from, trace[0]), trace[1..], middle, a);
      assert (trace + [a])[1..] == trace[1..] + [a];
    } else {
      assert Follows(p, Next(middle, a), (trace + [a])[1..], Next(middle, a));
    }
  }

  /** The calls process p makes among all calls of a run. */
  function CallsOf(run: seq<Action>, p: nat): seq<Action> {
    if run == [] then [] else (if run[0].p == p then [run[0]] else []) + CallsOf(run[1..], p)
  }

  /** Every interleaving is made of processes that each follow the function. */
  lemma {:induction false} EachProcessFollows(s: State, run: seq<Action>, p: nat)
    requires IsRun(s, run) && p < |s.places| == |s.grants|
    ensures |Execute(s, run).places| == |s.places|
    ensures Follows(p, s.places[p], CallsOf(run, p), Execute(s, run).places[p])
    decreases |run|
  {
    if run != [] {
      EachProcessFollows(Do(s, run[0]), run[1..], p);
      var rest := CallsOf(run[1..], p);
      assert ([run[0]] + rest)[1..] == rest && [] + rest == rest;
    }
  }

  /** The results recorded in a trace are those the environment gave. */
  predicate Obtained(trace: seq<Action>, env: Outcomes) {
    forall i :: 0 <= i < |trace| ==>
      match trace[i]
      case Read(_, reading) => reading == if i == 0 then env.first else env.second
      case Lock(_, ok) => ok == env.locking
      case StartDiscard(_) => true
      case EndDiscard(_, ok) => ok == env.discarding
      case Record(_, ok) => ok == env.recording
      case Unlock(_, ok) => ok == env.unlocking
      case Exit(_) => false
  }

  /** The calls a process makes, given the answers: one read, and if the format is not current the lock and a second
      read, and if it is still not current the discard, the recording and the unlocking, up to the first failure. */
  function CallsMade(p: nat, env: Outcomes): seq<Action> {
    var unlock := [Unlock(p, env.unlocking)];
    [Read(p, env.first)] +
    if env.first == Failed || env.first == Format(40) then []
    else if !env.locking then [Lock(p, false)]
    else
      [Lock(p, true), Read(p, env.second)] +
      if env.second == Failed then unlock
      else if env.second == Format(40) then []
      else
        [StartDiscard(p), EndDiscard(p, env.discarding)]
        + (if env.discarding then [Record(p, env.recording)] else [])
        + unlock
  }

  /** A call succeeds exactly when a read finds format 40, the second one under the lock, or when every call up to the
      unlocking succeeds. */
  predicate Succeeds(env: Outcomes) {
    || env.first == Format(40)
    || (env.first != Failed && env.locking
        && (env.second == Format(40)
            || (env.second != Failed && env.discarding && env.recording && env.unlocking)))
  }

  /** The error exit: gives the lock back if it was taken. */
  method CleanupAndReturn(p: nat, env: Outcomes, releaseDdlLock: bool, calls: seq<Action>) returns (trace: seq<Action>)
    requires Follows(p, ReadFirst, calls, if releaseDdlLock then CleanUp else Returned(false)) && Obtained(calls, env)
    ensures Follows(p, ReadFirst, trace, Returned(false)) && Obtained(trace, env)
    ensures trace == calls + if releaseDdlLock then [Unlock(p, env.unlocking)] else []
  {
    hide Follows;
    trace := calls;
    if releaseDdlLock {
      FollowsOneMore(p, ReadFirst, trace, CleanUp, Unlock(p, env.unlocking));
      trace := trace + [Unlock(p, env.unlocking)];
    }
  }

  /** The function, with every call it makes into the database recorded in `trace`. */
  method AutoUpgradePlanDefinitionIfNeeded(p: nat, env: Outcomes) returns (status: bool, trace: seq<Action>)
    ensures Follows(p, ReadFirst, trace, Returned(status)) && Obtained(trace, env)
    ensures status == Succeeds(env) && trace == CallsMade(p, env)
  {
    hide Follows;
    trace := [];
    var releaseDdlLock := false;
    FollowsNothing(p, ReadFirst);
    while true
      invariant trace == [] <==> !releaseDdlLock
      invariant Follows(p, ReadFirst, trace, if releaseDdlLock then ReadAgain else ReadFirst) && Obtained(trace, env)
      invariant releaseDdlLock ==>
                  && env.first != Failed && env.first != Format(40) && env.locking
                  && trace == [Read(p, env.first), Lock(p, env.locking)]
      decreases !releaseDdlLock
    {
      ghost var place := if releaseDdlLock then ReadAgain else ReadFirst;
      var reading := if releaseDdlLock then env.second else env.first;
      FollowsOneMore(p, ReadFirst, trace, place, Read(p, reading));
      trace := trace + [Read(p, reading)];
      place := Next(place, Read(p, reading));
      var autoUpgradeNeeded: bool;
      match reading {
        case Undefined => autoUpgradeNeeded := true;
        case Format(planDefinitionFmt) => autoUpgradeNeeded := FMT_PLAN_DEFINITION != planDefinitionFmt;
        case Failed =>
          trace := CleanupAndReturn(p, env, releaseDdlLock, trace);
          return false, trace;
      }
      if !autoUpgradeNeeded {
        // The clean-up macro is passed a successful status here, and then does nothing.
        return true, trace;
      }
      if !releaseDdlLock {
        FollowsOneMore(p, ReadFirst, trace, AskForLock, Lock(p, env.locking));
        trace := trace + [Lock(p, env.locking)];
        if !env.locking {
          return false, trace;
        }
      } else {
        break;
      }
      releaseDdlLock := true;
    }
    FollowsOneMore(p, ReadFirst, trace, BeforeDiscard, StartDiscard(p));
    trace := trace + [StartDiscard(p)];
    FollowsOneMore(p, ReadFirst, trace, Discarding, EndDiscard(p, env.discarding));
    trace := trace + [EndDiscard(p, env.discarding)];
    if !env.discarding {
      trace := CleanupAndReturn(p, env, releaseDdlLock, trace);
      return false, trace;
    }
    FollowsOneMore(p, ReadFirst, trace, BeforeRecord, Record(p, env.recording));
    trace := trace + [Record(p, env.recording)];
    if !env.recording {
      trace := CleanupAndReturn(p, env, releaseDdlLock, trace);
      return false, trace;
    }
    FollowsOneMore(p, ReadFirst, trace, BeforeUnlock, Unlock(p, env.unlocking));
    trace := trace + [Unlock(p, env.unlocking)];
    return env.unlocking, trace;
  }

  /** The function can make its calls in one way only, given what the environment answers. */
  lemma {:induction false} OneTrace(p: nat, env: Outcomes, done: seq<Action>, from: Place, a: seq<Action>, x: bool,
                                    b: seq<Action>, y: bool)
    requires Follows(p, from, a, Returned(x)) && Follows(p, from, b, Returned(y))
    requires Obtained(done + a, env) && Obtained(done + b, env)
    ensures a == b && x == y
    decreases |a|
  {
    if a != [] && b != [] {
      assert (done + a)[|done|] == a[0] && (done + b)[|done|] == b[0];
      assert done + a == (done + [a[0]]) + a[1..] && done + b == (done + [b[0]]) + b[1..];
      OneTrace(p, env, done + [a[0]], Next(from, a[0]), a[1..], x, b[1..], y);
    }
  }

  lemma FollowsFirst(p: nat, from: Place, a: Action, rest: seq<Action>, to: Place)
    requires a.p == p && Fits(from, a) && Follows(p, Next(from, a), rest, to)
    ensures Follows(p, from, [a] + rest, to)
  {
    assert ([a] + rest)[1..] == rest;
  }

  /** The calls of the whole way, from the second read on. */
  lemma UnderTheLock(p: nat, env: Outcomes) returns (calls: seq<Action>)
    requires env.first != Failed && env.first != Format(40) && env.locking
    ensures [Read(p, env.first), Lock(p, true)] + calls == CallsMade(p, env)
    ensures Follows(p, ReadAgain, calls, Returned(Succeeds(env)))
  {
    hide Follows;
    var read, unlock := Read(p, env.second), Unlock(p, env.unlocking);
    FollowsNothing(p, Returned(Succeeds(env)));
    if env.second == Format(40) {
      calls := [read] + [];
      FollowsFirst(p, ReadAgain, read, [], Returned(true));
    } else if env.second == Failed {
      FollowsFirst(p, CleanUp, unlock, [], Returned(false));
      FollowsFirst(p, ReadAgain, read, [unlock] + [], Returned(false));
      calls := [read] + ([unlock] + []);
    } else {
      var end := EndDiscard(p, env.discarding);
      calls := [unlock] + [];
      if env.discarding {
        var place := if env.recording then BeforeUnlock else CleanUp;
        FollowsFirst(p, place, unlock, [], Returned(Succeeds(env)));
        FollowsFirst(p, BeforeRecord, Record(p, env.recording), calls, Returned(Succeeds(env)));
        calls := [Record(p, env.recording)] + calls;
      } else {
        FollowsFirst(p, CleanUp, unlock, [], Returned(false));
      }
      FollowsFirst(p, Discarding, end, calls, Returned(Succeeds(env)));
      FollowsFirst(p, BeforeDiscard, StartDiscard(p), [end] + calls, Returned(Succeeds(env)));
      FollowsFirst(p, ReadAgain, read, [StartDiscard(p)] + ([end] + calls), Returned(Succeeds(env)));
      calls := [read] + ([StartDiscard(p)] + ([end] + calls));
    }
  }

  lemma CallsMadeFollow(p: nat, env: Outcomes)
    ensures Follows(p, ReadFirst, CallsMade(p, env), Returned(Succeeds(env)))
  {
    hide Follows;
    var read, lock := Read(p, env.first), Lock(p, env.locking);
    FollowsNothing(p, Returned(Succeeds(env)));
    if env.first == Failed || env.first == Format(40) {
      FollowsFirst(p, ReadFirst, read, [], Returned(Succeeds(env)));
      assert CallsMade(p, env) == [read] + [];
    } else if !env.locking {
      FollowsFirst(p, AskForLock, lock, [], Returned(false));
      FollowsFirst(p, ReadFirst, read, [lock] + [], Returned(false));
      assert CallsMade(p, env) == [read] + ([lock] + []);
    } else {
      var calls := UnderTheLock(p, env);
      FollowsFirst(p, AskForLock, lock, calls, Returned(Succeeds(env)));
      FollowsFirst(p, ReadFirst, read, [lock] + calls, Returned(Succeeds(env)));
      assert CallsMade(p, env) == [read] + ([lock] + calls);
    }
  }

  lemma CallsMadeObtain(p: nat, env: Outcomes)
    ensures Obtained(CallsMade(p, env), env)
  {
  }

  /** A process that gets these answers makes these calls and no others, and succeeds exactly then. */
  lemma OutcomeIsExact(p: nat, env: Outcomes, trace: seq<Action>, ok: bool)
    requires Follows(p, ReadFirst, trace, Returned(ok)) && Obtained(trace, env)
    ensures trace == CallsMade(p, env) && ok == Succeeds(env)
  {
    hide Follows, CallsMade, Succeeds;
    CallsMadeFollow(p, env);
    CallsMadeObtain(p, env);
    assert [] + trace == trace && [] + CallsMade(p, env) == CallsMade(p, env);
    OneTrace(p, env, [], ReadFirst, trace, ok, CallsMade(p, env), Succeeds(env));
  }

  /** When the format is already current at the start, one read is all, and the call succeeds. */
  lemma NothingToDo(p: nat, env: Outcomes, trace: seq<Action>, ok: bool)
    requires env.first == Format(40) && Follows(p, ReadFirst, trace, Returned(ok)) && Obtained(trace, env)
    ensures ok && trace == [Read(p, Format(40))]
  {
    OutcomeIsExact(p, env, trace, ok);
  }
}
