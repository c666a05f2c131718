/** One WebSocket session: what the framing thread owes its client, and what the client gets in spite of other threads
    that write at the same time. */
module WsSession {
  import opened Basics
  import opened WsBytes
  import opened WsParser
  import opened WsFrames
  import opened WsServer
  import opened WsProtocol
  import Sizes
  import T = WsTheorems

  // ---------------------------------------------------------------------------
  // What the framing thread owes
  // ---------------------------------------------------------------------------

  /** The frames that answer the parser's events: a pong for each ping; deliveries go to the database. */
  function PongFrames(events: seq<Event>): seq<ServerFrame> {
    if events == [] then []
    else (if events[0].Pong? then [ServerFrame(OPCODE_PONG, events[0].payload)] else []) + PongFrames(events[1..])
  }

  /** The two bytes of a status code, most significant first. */
  function StatusBytes(status: nat): seq<byte> {
    [status / 256 % 256, status % 256]
  }

  function CloseFrame(status: nat): ServerFrame {
    ServerFrame(OPCODE_CLOSE, StatusBytes(status))
  }

  /** What the framing thread sends for a client stream: the pongs in order, then a CLOSE with the closing status. */
  function Owed(version: int, stream: seq<byte>): seq<ServerFrame> {
    var p := Parse(version, stream);
    PongFrames(p.events) + [CloseFrame(if p.Closed? then p.status else STATUS_OK)]
  }

  /** A client reads the status of a CLOSE as the number that its two bytes make up, most significant first. */
  lemma StatusIsReadable(status: nat)
    requires status < 0x1_0000
    ensures |StatusBytes(status)| == 2 && Value(StatusBytes(status)) == status
  {
    var bytes := StatusBytes(status);
    DivideUnique(status / 256, 256, 0, status / 256);
    assert bytes[0] == status / 256;
    assert bytes[..1] == [bytes[0]] && bytes[..1][..0] == [];
    assert Value(bytes[..1]) == Value(bytes[..1][..0]) * 256 + bytes[0] == bytes[0];
    assert Value(bytes) == Value(bytes[..1]) * 256 + bytes[1];
  }

  lemma {:induction false} PongFramesConcat(a: seq<Event>, b: seq<Event>)
    ensures PongFrames(a + b) == PongFrames(a) + PongFrames(b)
    decreases |a|
  {
    if a == [] {
      assert a + b == b;
    } else {
      assert (a + b)[1..] == a[1..] + b;
      PongFramesConcat(a[1..], b);
      Assoc(if a[0].Pong? then [ServerFrame(OPCODE_PONG, a[0].payload)] else [], PongFrames(a[1..]), PongFrames(b));
    }
  }

  lemma {:induction false} PongsAreNoClose(events: seq<Event>)
    ensures forall f <- PongFrames(events) :: f.opcode == OPCODE_PONG
    decreases |events|
  {
    if events != [] {
      PongsAreNoClose(events[1..]);
    }
  }

  // ---------------------------------------------------------------------------
  // Who began which frame
  // ---------------------------------------------------------------------------

  /** A frame with the thread that began it. */
  datatype Entry = Entry(thread: nat, frame: ServerFrame)

  /** The frame that a thread is calling for. */
  function Wanted(place: Place): seq<ServerFrame> {
    if place.Wanting? || place.Entered? then [ServerFrame(OpcodeOfType(place.messageType), place.payload)] else []
  }

  /** What one step begins. */
  function BegunBy(s: State, a: Action): seq<Entry>
    requires Enabled(s, a)
  {
    if a.Check? && s.obb && !s.closing
    then [Entry(a.thread, ServerFrame(OpcodeOfType(s.places[a.thread].messageType), s.places[a.thread].payload))]
    else []
  }

  /** The frames begun in a run, in order. */
  function Begun(s: State, run: seq<Action>): seq<Entry>
    requires IsRun(s, run)
    decreases |run|
  {
    if run == [] then [] else BegunBy(s, run[0]) + Begun(Do(s, run[0]), run[1..])
  }

  function Frames(entries: seq<Entry>): seq<ServerFrame> {
    if entries == [] then [] else [entries[0].frame] + Frames(entries[1..])
  }

  /** The frames that the framing thread began. */
  function FramersOwn(entries: seq<Entry>): seq<ServerFrame> {
    if entries == [] then []
    else (if entries[0].thread == FRAMER then [entries[0].frame] else []) + FramersOwn(entries[1..])
  }

  /** The frame a step makes the framing thread call for. */
  function CalledBy(a: Action): seq<ServerFrame> {
    if a.Call? && a.thread == FRAMER then [ServerFrame(OpcodeOfType(a.messageType), a.payload)]
    else if a.EndLoop? then [ServerFrame(OPCODE_CLOSE, a.statusBytes)]
    else []
  }

  /** The frames that the framing thread calls for in a run. */
  function Called(run: seq<Action>): seq<ServerFrame> {
    if run == [] then [] else CalledBy(run[0]) + Called(run[1..])
  }

  function Pending(s: State): seq<ServerFrame> {
    if FRAMER in s.places then Wanted(s.places[FRAMER]) else []
  }

  /** No thread but the framing thread has begun a CLOSE. */
  predicate NoOtherClose(entries: seq<Entry>) {
    forall e <- entries :: e.thread != FRAMER ==> e.frame.opcode != OPCODE_CLOSE
  }

  /** A CLOSE can only be the last of the frames. */
  predicate CloseIsLast(frames: seq<ServerFrame>) {
    forall i :: 0 <= i < |frames| - 1 ==> frames[i].opcode != OPCODE_CLOSE
  }

  lemma {:induction false} BegunIsLogged(s: State, run: seq<Action>)
    requires Invariant(s) && IsRun(s, run)
    ensures Execute(s, run).log == s.log + Frames(Begun(s, run))
    decreases |run|
  {
    hide Invariant, Enabled, Do, BegunBy;
    if run == [] {
      assert s.log + [] == s.log;
    } else {
      var rest := Begun(Do(s, run[0]), run[1..]);
      StepHolds(s, run[0]);
      LogOfStep(s, run[0]);
      BegunIsLogged(Do(s, run[0]), run[1..]);
      FramesConcat(BegunBy(s, run[0]), rest);
      Assoc(s.log, Frames(BegunBy(s, run[0])), Frames(rest));
    }
  }

  lemma LogOfStep(s: State, a: Action)
    requires Enabled(s, a)
    ensures Do(s, a).log == s.log + Frames(BegunBy(s, a))
  {
  }

  lemma {:induction false} FramesConcat(a: seq<Entry>, b: seq<Entry>)
    ensures Frames(a + b) == Frames(a) + Frames(b)
    ensures FramersOwn(a + b) == FramersOwn(a) + FramersOwn(b)
    decreases |a|
  {
    if a == [] {
      assert a + b == b;
      assert [] + Frames(b) == Frames(b) && [] + FramersOwn(b) == FramersOwn(b);
    } else {
      assert (a + b)[1..] == a[1..] + b;
      FramesConcat(a[1..], b);
      Assoc([a[0].frame], Frames(a[1..]), Frames(b));
      Assoc(if a[0].thread == FRAMER then [a[0].frame] else [], FramersOwn(a[1..]), FramersOwn(b));
    }
  }

  /** One step, as far as the framing thread's frames are concerned: a call adds a frame to those pending, its check
      begins the pending frame or, when a CLOSE has been begun, drops it; other steps do neither. */
  lemma FramerStep(s: State, a: Action)
    requires Exclusive(s) && OutputOpen(s) && Enabled(s, a)
    ensures var begun, s' := FramersOwn(BegunBy(s, a)), Do(s, a);
            && FRAMER in s'.places
            && if a == Check(FRAMER) then
                 && |Pending(s)| == 1 && Pending(s') == [] && CalledBy(a) == []
                 && begun == (if s.closing then [] else Pending(s))
                 && (!s.closing ==> BegunBy(s, a) == [Entry(FRAMER, Pending(s)[0])])
               else
                 && begun == [] && Pending(s') == Pending(s) + CalledBy(a)
                 && forall e <- BegunBy(s, a) :: e.thread != FRAMER
  {
  }

  lemma ClosingStep(s: State, a: Action)
    requires Enabled(s, a)
    ensures s.closing ==> Do(s, a).closing && BegunBy(s, a) == []
    ensures !s.closing ==> (Do(s, a).closing <==> exists e <- BegunBy(s, a) :: e.frame.opcode == OPCODE_CLOSE)
  {
    if !s.closing && BegunBy(s, a) != [] {
      assert BegunBy(s, a)[0] in BegunBy(s, a);
    }
  }

  /** The framing thread's frames are among those it calls for, in order and from the first on. */
  lemma {:induction false} FramerInOrder(s: State, run: seq<Action>)
    requires Invariant(s) && IsRun(s, run)
    ensures var own, wanted := FramersOwn(Begun(s, run)), Pending(s) + Called(run);
            && own <= wanted && |own| + |Pending(Execute(s, run))| <= |wanted|
            && (s.closing ==> own == [])
    decreases |run|
  {
    hide Do, Enabled, BegunBy, CalledBy, Pending, LogValid, Written, Exclusive, OutputOpen;
    if run == [] {
      assert Pending(s) + [] == Pending(s);
    } else {
      var a, s' := run[0], Do(s, run[0]);
      var rest, later := FramersOwn(Begun(s', run[1..])), Called(run[1..]);
      StepHolds(s, a);
      FramerStep(s, a);
      ClosingStep(s, a);
      FramerInOrder(s', run[1..]);
      FramesConcat(BegunBy(s, a), Begun(s', run[1..]));
      assert [] + rest == rest && [] + later == later;
      Assoc(Pending(s), CalledBy(a), later);
      if a == Check(FRAMER) && !s.closing {
        PrefixBehind(Pending(s), rest, later);
      }
    }
  }

  lemma PrefixBehind<T>(front: seq<T>, a: seq<T>, b: seq<T>)
    requires a <= b
    ensures front + a <= front + b
  {
  }

  lemma NoOtherCloseInParts(a: seq<Entry>, b: seq<Entry>)
    requires NoOtherClose(a + b)
    ensures NoOtherClose(a) && NoOtherClose(b)
  {
    assert forall e <- a :: e in a + b;
    assert forall e <- b :: e in a + b;
  }

  /** When no other thread begins a CLOSE, a step that closes the session is the framing thread's check of one. */
  lemma ClosedByFramer(s: State, a: Action)
    requires Exclusive(s) && OutputOpen(s) && Enabled(s, a) && !s.closing && Do(s, a).closing
    requires NoOtherClose(BegunBy(s, a))
    ensures a == Check(FRAMER) && |Pending(s)| == 1 && Pending(s)[0].opcode == OPCODE_CLOSE
  {
    hide Do, Enabled, BegunBy, CalledBy, Pending, Exclusive, OutputOpen;
    FramerStep(s, a);
    ClosingStep(s, a);
  }

  /** Two ways of saying that the front of the pending frames has been begun. */
  lemma FrontBegun<T>(front: seq<T>, own: seq<T>, pending: seq<T>, later: seq<T>)
    requires own + pending == later
    ensures (front + own) + pending == front + later
  {
    Assoc(front, own, pending);
  }

  /** As long as no other thread has begun a CLOSE, none of the framing thread's frames is dropped. */
  lemma {:induction false} FramerUndisturbed(s: State, run: seq<Action>)
    requires Invariant(s) && IsRun(s, run) && !s.closing
    requires NoOtherClose(Begun(s, run)) && CloseIsLast(Pending(s) + Called(run))
    ensures FramersOwn(Begun(s, run)) + Pending(Execute(s, run)) == Pending(s) + Called(run)
    decreases |run|
  {
    hide Do, Enabled, BegunBy, CalledBy, Pending, LogValid, Written, Exclusive, OutputOpen, NoOtherClose, FramersOwn;
    if run == [] {
      NothingBegun(Pending(s));
    } else {
      var a, s' := run[0], Do(s, run[0]);
      var rest, later := Begun(s', run[1..]), Called(run[1..]);
      StepHolds(s, a);
      FramerStep(s, a);
      FramesConcat(BegunBy(s, a), rest);
      NoOtherCloseInParts(BegunBy(s, a), rest);
      Assoc(Pending(s), CalledBy(a), later);
      assert [] + FramersOwn(rest) == FramersOwn(rest) && [] + later == later;
      if a == Check(FRAMER) {
        CloseLastBehind(Pending(s), later);
      }
      if s'.closing {
        ClosedByFramer(s, a);
        FramerInOrder(s', run[1..]);
      } else {
        FramerUndisturbed(s', run[1..]);
      }
      if a == Check(FRAMER) {
        FrontBegun(Pending(s), FramersOwn(rest), Pending(Execute(s', run[1..])), later);
      }
    }
  }

  lemma NothingBegun(pending: seq<ServerFrame>)
    ensures FramersOwn([]) + pending == pending + []
  {
  }

  /** Behind the first frame a CLOSE is still last, and behind a CLOSE there is nothing. */
  lemma CloseLastBehind(front: seq<ServerFrame>, later: seq<ServerFrame>)
    requires CloseIsLast(front + later) && |front| == 1
    ensures CloseIsLast(later) && (front[0].opcode == OPCODE_CLOSE ==> later == [])
  {
    assert (front + later)[0] == front[0];
    assert forall i :: 0 <= i < |later| ==> later[i] == (front + later)[i + 1];
  }

  // ---------------------------------------------------------------------------
  // What the client gets
  // ---------------------------------------------------------------------------

  lemma {:induction false} EndWasCalled(s: State, run: seq<Action>)
    requires IsRun(s, run) && !s.loopOver && Execute(s, run).loopOver
    ensures exists f <- Called(run) :: f.opcode == OPCODE_CLOSE
    decreases |run|
  {
    if run[0].EndLoop? {
      assert Called(run)[0].opcode == OPCODE_CLOSE;
    } else {
      EndWasCalled(Do(s, run[0]), run[1..]);
      var f :| f in Called(run[1..]) && f.opcode == OPCODE_CLOSE;
      assert f in Called(run);
    }
  }

  lemma {:induction false} OwnEntry(entries: seq<Entry>, f: ServerFrame) returns (i: nat)
    requires f in FramersOwn(entries)
    ensures i < |entries| && entries[i] == Entry(FRAMER, f)
    decreases |entries|
  {
    if entries[0] == Entry(FRAMER, f) {
      i := 0;
    } else {
      i := OwnEntry(entries[1..], f);
      i := i + 1;
    }
  }

  lemma {:induction false} FrameAt(entries: seq<Entry>, i: nat)
    requires i < |entries|
    ensures |Frames(entries)| == |entries| && Frames(entries)[i] == entries[i].frame
    decreases |entries|
  {
    if i > 0 {
      FrameAt(entries[1..], i - 1);
    } else if |entries| > 1 {
      FrameAt(entries[1..], 0);
    }
  }

  /** What is owed ends with its only CLOSE; less than that is pongs. */
  lemma PartOfOwed(version: int, stream: seq<byte>, part: seq<ServerFrame>)
    requires part <= Owed(version, stream)
    ensures CloseIsLast(part) && Owed(version, stream) != []
    ensures Owed(version, stream)[|Owed(version, stream)| - 1].opcode == OPCODE_CLOSE
    ensures part != Owed(version, stream) ==>
              part <= PongFrames(Parse(version, stream).events) && forall f <- part :: f.opcode != OPCODE_CLOSE
  {
    hide Parse;
    PongsAreNoClose(Parse(version, stream).events);
    var owed, pongs := Owed(version, stream), PongFrames(Parse(version, stream).events);
    assert owed[..|pongs|] == pongs;
    assert forall i :: 0 <= i < |part| && i < |pongs| ==> part[i] == pongs[i] && pongs[i] in pongs;
  }

  /** The state after a run of a session, and the frames begun in it. */
  lemma SessionState(threads: set<nat>, run: seq<Action>)
    requires IsRun(Initial(threads), run)
    ensures var s, t, begun := Initial(threads), Execute(Initial(threads), run), Begun(Initial(threads), run);
            && Invariant(s) && !s.closing && !s.loopOver && Pending(s) == [] && Invariant(t)
            && t.log == Frames(begun)
            && forall i :: 0 <= i < |begun| - 1 ==> begun[i].frame.opcode != OPCODE_CLOSE
  {
    hide Execute, Begun, Written, Exclusive, OutputOpen;
    InitialHolds(threads);
    RunHolds(Initial(threads), run);
    BegunIsLogged(Initial(threads), run);
    var begun, t := Begun(Initial(threads), run), Execute(Initial(threads), run);
    assert [] + Frames(begun) == Frames(begun);
    forall i | 0 <= i < |begun| - 1
      ensures begun[i].frame.opcode != OPCODE_CLOSE
    {
      FrameAt(begun, i);
      assert t.log[i].opcode != OPCODE_CLOSE;
    }
  }

  /** In every interleaving of a session, with the framing thread calling for what it owes and other threads for
      anything: what the framing thread begins is a part of what it owes, in order and from the first on. Nothing of
      what it has called for is dropped unless another thread has begun a CLOSE; that is then the last frame, and the
      framing thread has begun pongs only. */
  lemma FramerKeepsItsWord(version: int, stream: seq<byte>, threads: set<nat>, run: seq<Action>)
    requires IsRun(Initial(threads), run) && Called(run) <= Owed(version, stream)
    ensures var t, begun := Execute(Initial(threads), run), Begun(Initial(threads), run);
            var own := FramersOwn(begun);
            && t.log == Frames(begun) && own <= Owed(version, stream)
            && (forall i :: 0 <= i < |begun| - 1 ==> begun[i].frame.opcode != OPCODE_CLOSE)
            && if NoOtherClose(begun) then own + Pending(t) == Called(run)
               else own <= PongFrames(Parse(version, stream).events)
  {
    hide Execute, Begun, Invariant, Parse, Owed, FramersOwn, Frames, PongFrames, Pending, Called, IsRun, Initial;
    var s, begun := Initial(threads), Begun(Initial(threads), run);
    var own, owed := FramersOwn(begun), Owed(version, stream);
    SessionState(threads, run);
    PartOfOwed(version, stream, Called(run));
    assert [] + Called(run) == Called(run);
    FramerInOrder(s, run);
    PartOfOwed(version, stream, own);
    if NoOtherClose(begun) {
      FramerUndisturbed(s, run);
    } else if own == owed {
      var e :| e in begun && e.thread != FRAMER && e.frame.opcode == OPCODE_CLOSE;
      var j :| 0 <= j < |begun| && begun[j] == e;
      var i := OwnEntry(begun, owed[|owed| - 1]);
      assert false;
    }
  }

  /** The status of the parse, or 1000 for a stream that simply ends. */
  function ClosingStatus(version: int, stream: seq<byte>): nat {
    var p := Parse(version, stream);
    if p.Closed? then p.status else 1000
  }

  lemma LastOwed(version: int, stream: seq<byte>)
    ensures var owed := Owed(version, stream);
            && owed != [] && owed[|owed| - 1].opcode == 8
            && Value(owed[|owed| - 1].payload) == ClosingStatus(version, stream)
  {
    hide Parse;
    if Parse(version, stream).Closed? {
      T.ClosingStatuses(version, stream);
    }
    StatusIsReadable(ClosingStatus(version, stream));
  }

  /** When the framing thread has done its part and no other thread has closed the session, the frames it owes are among
      those the client reads, each of them once and in order. The last frame of all is a CLOSE, and the number the
      client reads in it is the closing status. */
  lemma ClientGetsWhatIsOwed(version: int, stream: seq<byte>, threads: set<nat>, run: seq<Action>)
    requires IsRun(Initial(threads), run) && Called(run) <= Owed(version, stream)
    requires At(Execute(Initial(threads), run), FRAMER, Gone) && NoOtherClose(Begun(Initial(threads), run))
    ensures var t, begun := Execute(Initial(threads), run), Begun(Initial(threads), run);
            && ReadServerFrames(t.output) == Frames(begun) && FramersOwn(begun) == Owed(version, stream)
            && begun != [] && begun[|begun| - 1] == Entry(FRAMER, Owed(version, stream)[|Owed(version, stream)| - 1])
            && begun[|begun| - 1].frame.opcode == 8
            && Value(begun[|begun| - 1].frame.payload) == ClosingStatus(version, stream)
  {
    LastOwed(version, stream);
    hide Begun, Parse, Owed, FramersOwn, IsRun, Called, ReadServerFrames, Written, LogValid, Exclusive;
    var s, t, begun := Initial(threads), Execute(Initial(threads), run), Begun(Initial(threads), run);
    var owed := Owed(version, stream);
    FramerKeepsItsWord(version, stream, threads, run);
    SessionState(threads, run);
    EndWasCalled(s, run);
    PartOfOwed(version, stream, Called(run));
    CloseIsSent(threads, run);
    assert Pending(t) == [] && FramersOwn(begun) + [] == FramersOwn(begun);
    assert Called(run) == owed;
    var i := OwnEntry(begun, owed[|owed| - 1]);
    assert i == |begun| - 1;
  }

  // The pings of a client, in the order in which it sends them.

  function Pings(controls: seq<T.Control>): seq<seq<byte>> {
    if controls == [] then []
    else (if controls[0].ping then [controls[0].payload] else []) + Pings(controls[1..])
  }

  function FragmentPings(fragments: seq<T.Fragment>): seq<seq<byte>> {
    if fragments == [] then [] else Pings(fragments[0].before) + FragmentPings(fragments[1..])
  }

  function AllPings(messages: seq<T.ClientMessage>, trailing: seq<T.Control>): seq<seq<byte>> {
    if messages == [] then Pings(trailing)
    else FragmentPings(messages[0].fragments) + AllPings(messages[1..], trailing)
  }

  /** One pong frame, opcode 10, for each payload. */
  predicate AnswersTo(frames: seq<ServerFrame>, payloads: seq<seq<byte>>) {
    |frames| == |payloads| && forall i :: 0 <= i < |frames| ==> frames[i] == ServerFrame(10, payloads[i])
  }

  lemma AnswersJoin(a: seq<ServerFrame>, p: seq<seq<byte>>, b: seq<ServerFrame>, q: seq<seq<byte>>)
    requires AnswersTo(a, p) && AnswersTo(b, q)
    ensures AnswersTo(a + b, p + q)
  {
  }

  lemma {:induction false} ControlsAnswered(controls: seq<T.Control>)
    ensures AnswersTo(PongFrames(T.Answers(controls)), Pings(controls))
  {
    if controls != [] {
      var answer, payload := T.Answer(controls[0]), controls[0].payload;
      ControlsAnswered(controls[1..]);
      PongFramesConcat(answer, T.Answers(controls[1..]));
      assert PongFrames([Pong(payload)]) == [ServerFrame(10, payload)] + PongFrames([]);
      AnswersJoin(PongFrames(answer), if controls[0].ping then [payload] else [],
                  PongFrames(T.Answers(controls[1..])), Pings(controls[1..]));
    }
  }

  lemma {:induction false} FragmentsAnswered(fragments: seq<T.Fragment>)
    ensures AnswersTo(PongFrames(T.FragmentAnswers(fragments)), FragmentPings(fragments))
  {
    hide AnswersTo;
    if fragments == [] {
      NothingAnswered();
    } else {
      var before, more := fragments[0].before, fragments[1..];
      FragmentsAnswered(more);
      ControlsAnswered(before);
      PongFramesConcat(T.Answers(before), T.FragmentAnswers(more));
      AnswersJoin(PongFrames(T.Answers(before)), Pings(before), PongFrames(T.FragmentAnswers(more)),
                  FragmentPings(more));
    }
  }

  lemma NothingAnswered()
    ensures AnswersTo(PongFrames([]), [])
  {
  }

  lemma {:induction false} MessagesAnswered(messages: seq<T.ClientMessage>, trailing: seq<T.Control>)
    ensures AnswersTo(PongFrames(T.Expected(messages, trailing)), AllPings(messages, trailing))
    decreases |messages|
  {
    hide AnswersTo;
    if messages == [] {
      ControlsAnswered(trailing);
    } else {
      var fragments, more := messages[0].fragments, messages[1..];
      var delivery, rest := [Deliver(T.Payloads(fragments))], T.Expected(more, trailing);
      MessagesAnswered(more, trailing);
      FragmentsAnswered(fragments);
      PongFramesConcat(T.FragmentAnswers(fragments), delivery + rest);
      PongFramesConcat(delivery, rest);
      assert PongFrames(delivery) == [] + PongFrames([]);
      assert [] + PongFrames(rest) == PongFrames(rest);
      AnswersJoin(PongFrames(T.FragmentAnswers(fragments)), FragmentPings(fragments), PongFrames(rest),
                  AllPings(more, trailing));
    }
  }

  /** For a client that sends messages, pings and pongs and then stops, the frames owed are one pong for each of its
      pings, in order and with the payload of the ping, and a CLOSE whose status reads 1000. */
  lemma PingsAreAnswered(version: int, messages: seq<T.ClientMessage>, trailing: seq<T.Control>)
    requires T.ControlsSendable(trailing) && forall i :: 0 <= i < |messages| ==> T.Sendable(messages[i])
    ensures LegalAll(Idle, T.ClientFrames(messages, trailing))
    ensures var owed := Owed(version, EncodeFrames(T.ClientFrames(messages, trailing)));
            && owed != [] && AnswersTo(owed[..|owed| - 1], AllPings(messages, trailing))
            && owed[|owed| - 1].opcode == 8 && Value(owed[|owed| - 1].payload) == 1000
  {
    hide Parse;
    T.ParserInvertsClient(version, messages, trailing);
    MessagesAnswered(messages, trailing);
    StatusIsReadable(1000);
    var pongs := PongFrames(T.Expected(messages, trailing));
    assert (pongs + [CloseFrame(STATUS_OK)])[..|pongs|] == pongs;
  }

  /** A message that the header of the way to the database cannot announce: one binary frame, within the limit on
      frames, is delivered whole, and its size has five digits. */
  lemma DeliveryCanExceedHeader(version: int) returns (stream: seq<byte>, message: seq<byte>)
    ensures Parse(version, stream) == Running(Start, NoMessage, [], [Deliver(message)])
    ensures |message| == Sizes.Power(62, 4) && |Sizes.Numeral(|message|, 62)| == 5
  {
    hide Parse;
    Sizes.HeaderFitsExactly(Sizes.Power(62, 4));
    message := seq(Sizes.Power(62, 4), _ => 0);
    Sizes.NumeralLength(|message|, 62, 5);
    var fragment := T.Fragment([], Long, ZERO_KEY, message);
    var messages := [T.ClientMessage(false, [fragment])];
    T.ParserInvertsClient(version, messages, []);
    stream := EncodeFrames(T.ClientFrames(messages, []));
    assert T.Payloads([fragment]) == message + T.Payloads([]) == message;
    assert T.Expected(messages, []) == [Deliver(message)] by {
      assert messages[1..] == [] && [fragment][1..] == [];
      assert T.FragmentAnswers([fragment]) == [] + T.FragmentAnswers([]);
    }
  }
}
