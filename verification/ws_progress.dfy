/** No session is stuck: from every reachable state the framing thread can call for the rest of what it owes and take
    the output away. */
module WsProgress {
  import opened Basics
  import opened WsBytes
  import opened WsParser
  import opened WsFrames
  import opened WsServer
  import opened WsProtocol
  import opened WsSession
  import T = WsTheorems

  /** Only the framing thread is where it opens the output or takes it away. */
  ghost predicate Roles(s: State) {
    && s.holder >= NOBODY
    && forall t :: t in s.places && t != FRAMER ==>
         var place := s.places[t]; !place.Opening? && !place.WantingEnd? && !place.Ending? && !place.Gone?
  }

  lemma RolesStep(s: State, a: Action)
    requires Roles(s) && Enabled(s, a)
    ensures Roles(Do(s, a))
  {
  }

  lemma {:induction false} RolesHold(s: State, run: seq<Action>)
    requires Roles(s) && IsRun(s, run)
    ensures Roles(Execute(s, run))
    decreases |run|
  {
    hide Roles, Enabled, Do;
    if run != [] {
      RolesStep(s, run[0]);
      RolesHold(Do(s, run[0]), run[1..]);
    }
  }

  /** What the framing thread has still to call for: pongs and a CLOSE, or nothing after the loop. */
  ghost predicate StillOwed(s: State, todo: seq<ServerFrame>) {
    && (todo == [] <==> s.loopOver)
    && (forall f <- todo :: |f.payload| < PAYLOAD_BOUND)
    && (forall i :: 0 <= i < |todo| - 1 ==> todo[i].opcode == OPCODE_PONG)
    && (todo != [] ==> todo[|todo| - 1].opcode == OPCODE_CLOSE && |todo[|todo| - 1].payload| == 2)
  }

  /** A step of the thread that holds the mutex, or else of the framing thread. */
  function Next(s: State, todo: seq<ServerFrame>): Action {
    var t := if s.holder < 0 then FRAMER else s.holder;
    if t !in s.places then OpenOutput
    else match s.places[t]
      case Outside =>
        if todo == [] then OpenOutput
        else if |todo| == 1 then EndLoop(todo[0].payload)
        else Call(FRAMER, TYPE_PONG, todo[0].payload)
      case Wanting(_, _) => Lock(t)
      case Entered(_, _) => Check(t)
      case WritingHeader(_) => WriteHeader(t)
      case WritingPayload(_) => WritePayload(t)
      case Leaving => Unlock(t)
      case Opening => OpenOutput
      case WantingEnd => LockEnd
      case Ending => if s.obb then ClearOutput else Release
      case Gone => OpenOutput
  }

  function Later(a: Action, todo: seq<ServerFrame>): seq<ServerFrame> {
    if todo != [] && (a.Call? || a.EndLoop?) then todo[1..] else todo
  }

  /** How far a thread is from being done with what it is doing. */
  function Distance(s: State, t: int): nat {
    if t >= 0 && t in s.places then StepsLeft(s.places[t], s.obb) else 0
  }

  function StepsLeft(place: Place, obb: bool): nat {
    match place
    case Opening => 9
    case Wanting(_, _) => 8
    case Entered(_, _) => 7
    case WritingHeader(_) => 6
    case WritingPayload(_) => 5
    case Leaving => 4
    case Outside => 3
    case WantingEnd => 3
    case Ending => if obb then 2 else 1
    case Gone => 0
  }

  lemma NextIsEnabled(s: State, todo: seq<ServerFrame>)
    requires Exclusive(s) && OutputOpen(s) && Roles(s) && StillOwed(s, todo) && !At(s, FRAMER, Gone)
    ensures var a := Next(s, todo);
            && Enabled(s, a) && CalledBy(a) + Later(a, todo) == todo
            && (Later(a, todo) == todo || |Later(a, todo)| < |todo|)
            && forall e <- BegunBy(s, a) :: e.thread == s.holder
  {
  }

  lemma OwedAfterNext(s: State, todo: seq<ServerFrame>)
    requires StillOwed(s, todo) && Enabled(s, Next(s, todo))
    ensures var a := Next(s, todo); StillOwed(Do(s, a), Later(a, todo))
  {
  }

  /** The framing thread gets on when it holds the mutex or nobody does, */
  lemma FramerLeadsOn(s: State, todo: seq<ServerFrame>)
    requires Exclusive(s) && OutputOpen(s) && !At(s, FRAMER, Gone)
    requires Enabled(s, Next(s, todo)) && s.holder <= 0
    ensures var a := Next(s, todo);
            && Do(s, a).holder in {s.holder, NOBODY, FRAMER}
            && (|Later(a, todo)| < |todo| || Distance(Do(s, a), FRAMER) < Distance(s, FRAMER))
  {
  }

  /** and another thread that holds it gets on meanwhile. */
  lemma OtherLeadsOn(s: State, todo: seq<ServerFrame>)
    requires Exclusive(s) && Roles(s) && s.holder > 0
    requires Enabled(s, Next(s, todo))
    ensures var a := Next(s, todo);
            var s' := Do(s, a);
            && s'.holder in {s.holder, NOBODY} && Later(a, todo) == todo
            && Distance(s', FRAMER) == Distance(s, FRAMER) && Distance(s', s'.holder) < Distance(s, s.holder)
  {
    hide ServerHeader, OpcodeOfType, OutputOpen;
  }

  /** From a reachable state there are steps to the end of the session, and in them the framing thread calls for exactly
      what it still owes. No thread begins a frame in them but the framing thread and the one that holds the mutex. */
  lemma {:induction false} FinishFrom(s: State, todo: seq<ServerFrame>) returns (more: seq<Action>)
    requires Invariant(s) && Roles(s) && StillOwed(s, todo)
    ensures IsRun(s, more) && At(Execute(s, more), FRAMER, Gone) && Called(more) == todo
    ensures forall e <- Begun(s, more) :: e.thread == FRAMER || e.thread == s.holder
    decreases |todo|, Distance(s, FRAMER), Distance(s, s.holder)
  {
    hide LogValid, Written, Enabled, Do, Next, Later, Distance, StillOwed, Roles, BegunBy, CalledBy;
    if At(s, FRAMER, Gone) {
      more := [];
      DoneOwesNothing(s, todo);
    } else {
      var a := Next(s, todo);
      NextIsEnabled(s, todo);
      if s.holder <= 0 {
        FramerLeadsOn(s, todo);
      } else {
        OtherLeadsOn(s, todo);
      }
      OwedAfterNext(s, todo);
      StepHolds(s, a);
      RolesStep(s, a);
      var rest := FinishFrom(Do(s, a), Later(a, todo));
      more := [a] + rest;
      assert more[1..] == rest;
    }
  }

  lemma DoneOwesNothing(s: State, todo: seq<ServerFrame>)
    requires Exclusive(s) && OutputOpen(s) && StillOwed(s, todo) && At(s, FRAMER, Gone)
    ensures todo == []
  {
  }

  // ---------------------------------------------------------------------------
  // Runs put together
  // ---------------------------------------------------------------------------

  lemma {:induction false} RunOfParts(s: State, a: seq<Action>, b: seq<Action>)
    requires IsRun(s, a) && IsRun(Execute(s, a), b)
    ensures IsRun(s, a + b) && Execute(s, a + b) == Execute(Execute(s, a), b)
    ensures Begun(s, a + b) == Begun(s, a) + Begun(Execute(s, a), b)
    ensures Called(a + b) == Called(a) + Called(b)
    decreases |a|
  {
    hide Enabled, Do, BegunBy, CalledBy;
    if a == [] {
      assert a + b == b;
    } else {
      assert (a + b)[0] == a[0] && (a + b)[1..] == a[1..] + b;
      RunOfParts(Do(s, a[0]), a[1..], b);
      Assoc(BegunBy(s, a[0]), Begun(Do(s, a[0]), a[1..]), Begun(Execute(s, a), b));
      Assoc(CalledBy(a[0]), Called(a[1..]), Called(b));
    }
  }

  /** What is left of the owed frames after a part of them. */
  lemma RestOfOwed(version: int, stream: seq<byte>, s: State, done: seq<ServerFrame>)
    requires var owed := Owed(version, stream); done <= owed && (s.loopOver <==> done == owed)
    ensures StillOwed(s, Owed(version, stream)[|done|..])
  {
    hide Parse;
    var events := Parse(version, stream).events;
    T.PongsAreShort(version, stream);
    ShortPongs(events);
    var owed, pongs := Owed(version, stream), PongFrames(events);
    var todo := owed[|done|..];
    assert forall i :: 0 <= i < |pongs| ==> owed[i] == pongs[i] && pongs[i] in pongs;
    forall f | f in todo
      ensures |f.payload| < PAYLOAD_BOUND
    {
      var i :| 0 <= i < |todo| && todo[i] == f;
      assert f == owed[|done| + i];
    }
  }

  lemma {:induction false} ShortPongs(events: seq<Event>)
    requires forall e <- events :: e.Pong? ==> |e.payload| <= 125
    ensures forall f <- PongFrames(events) :: f.opcode == OPCODE_PONG && |f.payload| <= 125
    decreases |events|
  {
    if events != [] {
      assert events[0] in events && forall e <- events[1..] :: e in events;
      ShortPongs(events[1..]);
    }
  }

  /** Every session can be brought to its end: whatever has happened, as long as the framing thread has called for a
      part of what it owes and has left its loop exactly when that was all. When no other thread has begun a CLOSE or
      holds the mutex, it ends with what ClientGetsWhatIsOwed promises. */
  lemma SessionCanEnd(version: int, stream: seq<byte>, threads: set<nat>, run: seq<Action>) returns (more: seq<Action>)
    requires IsRun(Initial(threads), run) && Called(run) <= Owed(version, stream)
    requires Execute(Initial(threads), run).loopOver <==> Called(run) == Owed(version, stream)
    ensures IsRun(Initial(threads), run + more) && Called(run + more) == Owed(version, stream)
    ensures At(Execute(Initial(threads), run + more), FRAMER, Gone)
    ensures NoOtherClose(Begun(Initial(threads), run)) && Execute(Initial(threads), run).holder in {NOBODY, FRAMER} ==>
              NoOtherClose(Begun(Initial(threads), run + more))
  {
    hide Invariant, Begun, Owed, Called, Parse, Roles, StillOwed, Enabled, Do;
    var s := Execute(Initial(threads), run);
    InitialHolds(threads);
    RunHolds(Initial(threads), run);
    InitialRoles(threads);
    RolesHold(Initial(threads), run);
    RestOfOwed(version, stream, s, Called(run));
    more := FinishFrom(s, Owed(version, stream)[|Called(run)|..]);
    RunOfParts(Initial(threads), run, more);
  }

  lemma InitialRoles(threads: set<nat>)
    ensures Roles(Initial(threads))
  {
  }

  /** For every stream there is a session in which the client gets all that it is owed. */
  lemma SomeSessionEnds(version: int, stream: seq<byte>, threads: set<nat>) returns (run: seq<Action>)
    ensures IsRun(Initial(threads), run)
    ensures var t, begun := Execute(Initial(threads), run), Begun(Initial(threads), run);
            && ReadServerFrames(t.output) == Frames(begun) && FramersOwn(begun) == Owed(version, stream)
  {
    hide Owed, ReadServerFrames;
    assert Begun(Initial(threads), []) == [] && Called([]) == [];
    LastOwed(version, stream);
    run := SessionCanEnd(version, stream, threads, []);
    assert [] + run == run;
    ClientGetsWhatIsOwed(version, stream, threads, run);
  }
}
