/** Threads that share one WebSocket: `mgwsi_ws_client_send_block` under its mutex, as a protocol of steps. */
module WsProtocol {
  import opened Basics
  import opened WsBytes
  import opened WsParser
  import opened WsServer

  /** Where a thread stands. Wanting to Leaving are inside `mgwsi_ws_client_send_block`; the last four belong to
      the framing thread, which opens the output before its loop and takes it away after. */
  datatype Place =
    | Outside
    | Wanting(messageType: int, payload: seq<byte>)
    | Entered(messageType: int, payload: seq<byte>)
    | WritingHeader(frame: ServerFrame)
    | WritingPayload(frame: ServerFrame)
    | Leaving
    | Opening
    | WantingEnd
    | Ending
    | Gone

  /** The websocket record (`obb` stands for "not null") with the threads around it. `loopOver` says that the
      framing loop has ended; `log` lists the frames whose writing has begun. */
  datatype State = State(places: map<nat, Place>, loopOver: bool, holder: int, obb: bool, closing: bool,
                         output: seq<byte>, log: seq<ServerFrame>)

  /** A payload whose length an `int` can hold, as the call that writes it needs. */
  const PAYLOAD_BOUND := 0x8000_0000

  const FRAMER: nat := 0
  const NOBODY := -1

  datatype Action =
    | Call(thread: nat, messageType: int, payload: seq<byte>)
    | Lock(thread: nat)
    | Check(thread: nat)
    | WriteHeader(thread: nat)
    | WritePayload(thread: nat)
    | Unlock(thread: nat)
    | OpenOutput
    | EndLoop(statusBytes: seq<byte>)
    | LockEnd
    | ClearOutput
    | Release

  /** The framing thread starts with the mutex in its hands and no output to write to. */
  function Initial(threads: set<nat>): State {
    var places := map t | t in threads + {FRAMER} :: if t == FRAMER then Opening else Outside;
    State(places, false, FRAMER, false, false, [], [])
  }

  predicate At(s: State, t: nat, place: Place) {
    t in s.places && s.places[t] == place
  }

  predicate Enabled(s: State, a: Action) {
    match a
    case Call(t, messageType, payload) => At(s, t, Outside) && |payload| < PAYLOAD_BOUND
    case Lock(t) => s.holder == NOBODY && t in s.places && s.places[t].Wanting?
    case Check(t) => t in s.places && s.places[t].Entered?
    case WriteHeader(t) => t in s.places && s.places[t].WritingHeader?
    case WritePayload(t) => t in s.places && s.places[t].WritingPayload?
    case Unlock(t) => At(s, t, Leaving)
    case OpenOutput => At(s, FRAMER, Opening)
    case EndLoop(statusBytes) => At(s, FRAMER, Outside) && |statusBytes| == 2
    case LockEnd => s.holder == NOBODY && At(s, FRAMER, WantingEnd)
    case ClearOutput => At(s, FRAMER, Ending) && s.obb
    case Release => At(s, FRAMER, Ending) && !s.obb
  }

  function Move(s: State, t: nat, place: Place): State {
    s.(places := s.places[t := place])
  }

  function Do(s: State, a: Action): State
    requires Enabled(s, a)
  {
    match a
    case Call(t, messageType, payload) => Move(s, t, Wanting(messageType, payload))
    case Lock(t) => Move(s, t, Entered(s.places[t].messageType, s.places[t].payload)).(holder := t)
    case Check(t) =>
      if !s.obb || s.closing then Move(s, t, Leaving)
      else
        var f := ServerFrame(OpcodeOfType(s.places[t].messageType), s.places[t].payload);
        Move(s, t, WritingHeader(f)).(closing := f.opcode == OPCODE_CLOSE, log := s.log + [f])
    case WriteHeader(t) =>
      var f := s.places[t].frame;
      Move(s, t, if |f.payload| > 0 then WritingPayload(f) else Leaving)
        .(output := s.output + ServerHeader(f.opcode % 16, |f.payload|))
    case WritePayload(t) => Move(s, t, Leaving).(output := s.output + s.places[t].frame.payload)
    case Unlock(t) => Move(s, t, if t == FRAMER && s.loopOver then WantingEnd else Outside).(holder := NOBODY)
    case OpenOutput => Move(s, FRAMER, Leaving).(obb := true)
    case EndLoop(statusBytes) => Move(s, FRAMER, Wanting(TYPE_CLOSE, statusBytes)).(loopOver := true)
    case LockEnd => Move(s, FRAMER, Ending).(holder := FRAMER)
    case ClearOutput => s.(obb := false)
    case Release => Move(s, FRAMER, Gone).(holder := NOBODY)
  }

  /** A run: any interleaving of steps of any threads. */
  predicate IsRun(s: State, actions: seq<Action>)
    decreases |actions|
  {
    actions == [] || (Enabled(s, actions[0]) && IsRun(Do(s, actions[0]), actions[1..]))
  }

  function Execute(s: State, actions: seq<Action>): State
    requires IsRun(s, actions)
    decreases |actions|
  {
    if actions == [] then s else Execute(Do(s, actions[0]), actions[1..])
  }

  // ---------------------------------------------------------------------------
  // The invariant
  // ---------------------------------------------------------------------------

  /** Inside the critical section. */
  predicate Critical(place: Place) {
    !place.Outside? && !place.Wanting? && !place.WantingEnd? && !place.Gone?
  }

  /** The frame that the holder of the mutex is in the middle of, with the number of its bytes written. */
  function Progress(s: State): (int, ServerFrame) {
    var none := ServerFrame(0, []);
    if s.holder < 0 || s.holder !in s.places then (-1, none)
    else match s.places[s.holder]
      case WritingHeader(f) => (0, f)
      case WritingPayload(f) => (|ServerHeader(f.opcode % 16, |f.payload|)|, f)
      case _ => (-1, none)
  }

  /** The frames written completely. */
  function Completed(s: State): seq<ServerFrame> {
    if Progress(s).0 >= 0 && |s.log| > 0 then s.log[..|s.log| - 1] else s.log
  }

  /** Mutual exclusion. */
  ghost predicate Exclusive(s: State) {
    && FRAMER in s.places
    && (forall t :: t in s.places && Critical(s.places[t]) ==> s.holder == t)
    && (s.holder >= 0 ==> s.holder in s.places && Critical(s.places[s.holder]))
    && (forall t :: t in s.places && (s.places[t].Wanting? || s.places[t].Entered?) ==>
          |s.places[t].payload| < PAYLOAD_BOUND)
  }

  /** The frames begun so far: at most one CLOSE, the last one, and the flag says whether it is there. */
  ghost predicate LogValid(s: State) {
    && (forall f :: f in s.log ==> f.Sendable())
    && (s.closing <==> s.log != [] && s.log[|s.log| - 1].opcode == OPCODE_CLOSE)
    && (forall i :: 0 <= i < |s.log| - 1 ==> s.log[i].opcode != OPCODE_CLOSE)
    && (Progress(s).0 >= 0 ==> s.log != [] && s.log[|s.log| - 1] == Progress(s).1)
  }

  /** The output goes away only after the framing thread's own CLOSE. */
  ghost predicate OutputOpen(s: State)
    requires FRAMER in s.places
  {
    && (!s.obb ==> Progress(s).0 < 0)
    && match s.places[FRAMER]
    case Opening => !s.obb && !s.closing && !s.loopOver
    case Outside => s.obb && !s.loopOver
    case WantingEnd => s.obb && s.closing && s.loopOver
    case Ending => s.closing && s.loopOver
    case Gone => !s.obb && s.closing && s.loopOver
    case Leaving => s.obb && (s.loopOver ==> s.closing)
    case WritingHeader(_) => s.obb && (s.loopOver ==> s.closing)
    case WritingPayload(_) => s.obb && (s.loopOver ==> s.closing)
    case Wanting(messageType, _) => s.obb && (s.loopOver ==> messageType == TYPE_CLOSE)
    case Entered(messageType, _) => s.obb && (s.loopOver ==> messageType == TYPE_CLOSE)
  }

  ghost predicate Invariant(s: State) {
    Exclusive(s) && LogValid(s) && Written(s) && OutputOpen(s)
  }

  /** The output is the completed frames and the part of the current frame that is out. */
  ghost predicate Written(s: State)
    requires forall f :: f in s.log ==> f.Sendable()
    requires Progress(s).0 >= 0 ==> s.log != [] && s.log[|s.log| - 1] == Progress(s).1
  {
    var (done, f) := Progress(s);
    if done >= 0
    then done < |EncodeServer(f)| && s.output == EncodeServerAll(Completed(s)) + EncodeServer(f)[..done]
    else s.output == EncodeServerAll(s.log)
  }

  lemma InitialHolds(threads: set<nat>)
    ensures Invariant(Initial(threads))
  {
  }

  lemma {:induction false} EncodeAppend(frames: seq<ServerFrame>, f: ServerFrame)
    requires (forall g :: g in frames ==> g.Sendable()) && f.Sendable()
    ensures EncodeServerAll(frames + [f]) == EncodeServerAll(frames) + EncodeServer(f)
    decreases |frames|
  {
    hide EncodeServer;
    if frames == [] {
      assert frames + [f] == [f];
      assert EncodeServerAll([f]) == EncodeServer(f) + [];
    } else {
      assert (frames + [f])[1..] == frames[1..] + [f];
      EncodeAppend(frames[1..], f);
    }
  }

  lemma ExclusiveStep(s: State, a: Action)
    requires Exclusive(s) && Enabled(s, a)
    ensures Exclusive(Do(s, a))
  {
  }

  /** The thread that takes a step other than Call, Lock, EndLoop and LockEnd holds the mutex. */
  predicate ByHolder(a: Action) {
    !a.Call? && !a.Lock? && !a.EndLoop? && !a.LockEnd?
  }

  lemma OpenStep(s: State, a: Action)
    requires Exclusive(s) && OutputOpen(s) && Enabled(s, a)
    ensures OutputOpen(Do(s, a))
  {
  }

  lemma ProgressStep(s: State, a: Action)
    requires Exclusive(s) && Enabled(s, a) && !a.Check? && !a.WriteHeader? && !a.WritePayload?
    ensures if ByHolder(a) || a.Lock? || a.LockEnd? then Progress(s).0 < 0 && Progress(Do(s, a)).0 < 0
            else Progress(Do(s, a)) == Progress(s)
    ensures Do(s, a).log == s.log && Do(s, a).output == s.output && Do(s, a).closing == s.closing
  {
  }

  lemma QuietStep(s: State, a: Action)
    requires Invariant(s) && Enabled(s, a) && !a.Check? && !a.WriteHeader? && !a.WritePayload?
    ensures LogValid(Do(s, a)) && Written(Do(s, a))
  {
    hide Progress, EncodeServer, EncodeServerAll, OutputOpen, Enabled, Do, Exclusive;
    ProgressStep(s, a);
  }

  /** What a check does: nothing, or it begins a frame. */
  lemma CheckResult(s: State, t: nat)
    requires Exclusive(s) && Enabled(s, Check(t))
    ensures var f, s' := ServerFrame(OpcodeOfType(s.places[t].messageType), s.places[t].payload), Do(s, Check(t));
            && f.Sendable() && Progress(s).0 < 0 && s'.output == s.output
            && if !s.obb || s.closing then Progress(s').0 < 0 && s'.log == s.log && s'.closing == s.closing
               else Progress(s') == (0, f) && s'.log == s.log + [f] && (s'.closing <==> f.opcode == OPCODE_CLOSE)
  {
  }

  lemma CheckStep(s: State, t: nat)
    requires Invariant(s) && Enabled(s, Check(t))
    ensures LogValid(Do(s, Check(t))) && Written(Do(s, Check(t)))
  {
    hide EncodeServer, EncodeServerAll, OutputOpen, Do, Progress, Exclusive, OpcodeOfType, ServerFrame.Sendable;
    CheckResult(s, t);
    var s' := Do(s, Check(t));
    if s.obb && !s.closing {
      var f := ServerFrame(OpcodeOfType(s.places[t].messageType), s.places[t].payload);
      assert s'.log[..|s'.log| - 1] == s.log;
      NonEmptyEncoding(f);
      assert s.output + EncodeServer(f)[..0] == s.output;
    }
  }

  lemma NonEmptyEncoding(f: ServerFrame)
    requires f.Sendable()
    ensures |EncodeServer(f)| > 0 && EncodeServer(f)[..0] == []
    ensures f.opcode % 16 == f.opcode
  {
  }

  /** What a write does: it puts out the next part of the frame in progress, and the last part ends it. */
  lemma WriteResult(s: State, a: Action)
    requires Exclusive(s) && Enabled(s, a) && (a.WriteHeader? || a.WritePayload?)
    ensures var (done, f), s' := Progress(s), Do(s, a);
            var header := ServerHeader(f.opcode % 16, |f.payload|);
            && s'.log == s.log && s'.closing == s.closing
            && if a.WriteHeader? then
                 && done == 0 && s'.output == s.output + header
                 && if f.payload == [] then Progress(s').0 < 0 else Progress(s') == (|header|, f)
               else done == |header| && s'.output == s.output + f.payload && Progress(s').0 < 0
  {
  }

  lemma WriteStep(s: State, a: Action)
    requires Invariant(s) && Enabled(s, a) && (a.WriteHeader? || a.WritePayload?)
    ensures LogValid(Do(s, a)) && Written(Do(s, a))
  {
    hide EncodeServerAll, OutputOpen, ServerHeader, Do, Enabled, Progress, Exclusive;
    WriteResult(s, a);
    var f := Progress(s).1;
    var init := s.log[..|s.log| - 1];
    assert s.log == init + [f];
    EncodeAppend(init, f);
    NonEmptyEncoding(f);
    var header := ServerHeader(f.opcode, |f.payload|);
    assert EncodeServer(f)[..|header|] == header;
    if f.payload == [] {
      assert header + f.payload == header;
    }
    if a.WriteHeader? {
      assert EncodeServerAll(init) + EncodeServer(f)[..0] == EncodeServerAll(init);
    } else {
      Assoc(EncodeServerAll(init), header, f.payload);
    }
  }

  lemma StepHolds(s: State, a: Action)
    requires Invariant(s) && Enabled(s, a)
    ensures Invariant(Do(s, a))
  {
    hide Progress, EncodeServer, EncodeServerAll, Do, Exclusive, LogValid, OutputOpen, Enabled;
    ExclusiveStep(s, a);
    OpenStep(s, a);
    if a.Check? {
      CheckStep(s, a.thread);
    } else if a.WriteHeader? || a.WritePayload? {
      WriteStep(s, a);
    } else {
      QuietStep(s, a);
    }
  }

  lemma {:induction false} RunHolds(s: State, actions: seq<Action>)
    requires Invariant(s) && IsRun(s, actions)
    ensures Invariant(Execute(s, actions))
    decreases |actions|
  {
    hide Invariant, Do, Enabled;
    if actions != [] {
      StepHolds(s, actions[0]);
      RunHolds(Do(s, actions[0]), actions[1..]);
    }
  }

  // ---------------------------------------------------------------------------
  // What a client sees
  // ---------------------------------------------------------------------------

  /** In every interleaving of any threads, a client reads back exactly the completed frames, in the order of
      their checks; at most one is a CLOSE and then it is the last; and while nobody holds the mutex the output
      is a concatenation of whole frames. */
  lemma ClientSeesWholeFrames(threads: set<nat>, actions: seq<Action>)
    requires IsRun(Initial(threads), actions)
    ensures var s := Execute(Initial(threads), actions);
            && ReadServerFrames(s.output) == Completed(s)
            && (forall f :: f in s.log ==> f.Sendable())
            && (s.holder == NOBODY ==> Completed(s) == s.log && s.output == EncodeServerAll(s.log))
            && (forall i :: 0 <= i < |s.log| - 1 ==> s.log[i].opcode != OPCODE_CLOSE)
  {
    hide Execute, ReadServerFrames, EncodeServer, EncodeServerAll, IsRun, Exclusive, OutputOpen;
    InitialHolds(threads);
    RunHolds(Initial(threads), actions);
    var s := Execute(Initial(threads), actions);
    var (done, f) := Progress(s);
    if done >= 0 {
      ServerFramesRead(Completed(s), f, done);
    } else {
      var any := ServerFrame(0, []);
      NonEmptyEncoding(any);
      ServerFramesRead(s.log, any, 0);
      assert EncodeServerAll(s.log) + [] == EncodeServerAll(s.log);
    }
  }

  lemma SilentStep(s: State, a: Action)
    requires Exclusive(s) && OutputOpen(s) && s.closing && Progress(s).0 < 0 && Enabled(s, a)
    ensures var s' := Do(s, a); s'.closing && Progress(s').0 < 0 && s'.output == s.output && s'.log == s.log
  {
  }

  /** Once a CLOSE frame is completely written, no later step of any thread adds a byte to the output. */
  lemma {:induction false} NothingAfterClose(s: State, actions: seq<Action>)
    requires Invariant(s) && IsRun(s, actions) && s.closing && Progress(s).0 < 0
    ensures Execute(s, actions).output == s.output && Execute(s, actions).log == s.log
    decreases |actions|
  {
    hide Do, Enabled, Progress, Exclusive, OutputOpen, LogValid, Written;
    if actions != [] {
      StepHolds(s, actions[0]);
      SilentStep(s, actions[0]);
      NothingAfterClose(Do(s, actions[0]), actions[1..]);
    }
  }

  /** When the framing thread has taken the output away, exactly one CLOSE frame has been sent, as the last. */
  lemma CloseIsSent(threads: set<nat>, actions: seq<Action>)
    requires IsRun(Initial(threads), actions)
    requires var s := Execute(Initial(threads), actions); At(s, FRAMER, Gone)
    ensures var s := Execute(Initial(threads), actions);
            var seen := ReadServerFrames(s.output);
            && seen == s.log && seen != [] && seen[|seen| - 1].opcode == OPCODE_CLOSE
            && forall i :: 0 <= i < |seen| - 1 ==> seen[i].opcode != OPCODE_CLOSE
  {
    hide Execute, ReadServerFrames, EncodeServer, EncodeServerAll, IsRun, Written;
    InitialHolds(threads);
    RunHolds(Initial(threads), actions);
    ClientSeesWholeFrames(threads, actions);
  }

  // ---------------------------------------------------------------------------
  // One call without interference
  // ---------------------------------------------------------------------------

  /** The websocket record as `mgwsi_ws_client_send_block` updates it while it holds the mutex. */
  class WebSocket {
    var obb: bool
    var closing: bool
    var output: seq<byte>

    constructor ()
      ensures !obb && !closing && output == []
    {
      obb, closing, output := false, false, [];
    }

    /** Writes one frame, or nothing when the output is closed; a CLOSE closes it. The length is cast to an
        `int` on its way to the output filter. */
    method ClientSendBlock(messageType: int, payload: seq<byte>) returns (written: nat)
      requires |payload| < PAYLOAD_BOUND
      modifies this`closing, this`output
      ensures var f := ServerFrame(OpcodeOfType(messageType), payload);
              && f.Sendable()
              && output == old(output) + (if obb && !old(closing) then EncodeServer(f) else [])
              && (closing <==> old(closing) || (obb && f.opcode == OPCODE_CLOSE))
              && written == if obb && !old(closing) then |payload| else 0
      ensures obb && !old(closing) ==> |output| > |old(output)| && output[|old(output)|] == FirstByte(messageType)
    {
      hide ServerHeader, FirstByte;
      FirstByteOnTheWire(messageType, payload);
      written := 0;
      if obb && !closing {
        var opcode := OpcodeOfType(messageType);
        if opcode == OPCODE_CLOSE {
          closing := true;
        }
        var header := new byte[32];
        var pos := BuildHeader(header, opcode, |payload|);
        Assoc(output, header[..pos], payload);
        assert payload == [] ==> header[..pos] + payload == header[..pos];
        output := output + header[..pos];
        if |payload| > 0 {
          output := output + payload;
          written := |payload|;
        }
      }
    }
  }

  /** The steps of a call inside the mutex add up to what the method does. */
  lemma StepsOfCall(s: State, t: nat)
    requires Invariant(s) && t in s.places && s.places[t].Entered?
    ensures var f := ServerFrame(OpcodeOfType(s.places[t].messageType), s.places[t].payload);
            var checked := Do(s, Check(t));
            && f.Sendable()
            && (checked.closing <==> s.closing || (s.obb && f.opcode == OPCODE_CLOSE))
            && if !s.obb || s.closing then At(checked, t, Leaving) && checked.output == s.output
               else
                 && Enabled(checked, WriteHeader(t))
                 && var begun := Do(checked, WriteHeader(t));
                    if f.payload == [] then At(begun, t, Leaving) && begun.output == s.output + EncodeServer(f)
                    else
                      && Enabled(begun, WritePayload(t))
                      && var done := Do(begun, WritePayload(t));
                         At(done, t, Leaving) && done.output == s.output + EncodeServer(f)
  {
    hide ServerHeader, Written, LogValid, OutputOpen;
    var f := ServerFrame(OpcodeOfType(s.places[t].messageType), s.places[t].payload);
    var header := ServerHeader(f.opcode, |f.payload|);
    assert f.opcode % 16 == f.opcode;
    Assoc(s.output, header, f.payload);
    if f.payload == [] {
      assert header + f.payload == header;
    }
  }
}
