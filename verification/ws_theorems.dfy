/** What the parser does over whole streams: it inverts a client's encoding and is safe on any input. */
module WsTheorems {
  import opened Basics
  import opened WsBytes
  import opened WsParser
  import opened WsFrames
  import opened WsVerdict
  import Utf8

  lemma LegalKeepsSound(context: Context, f: ClientFrame)
    requires context.Sound() && Legal(context, f)
    ensures After(context, f).Sound()
  {
  }

  lemma RunFrom(version: int, p: Parser, s: seq<byte>, n: nat)
    requires p.Valid() && n <= |s|
    ensures Run(version, p, s, n) == Run(version, p, s[n..], 0)
  {
    assert s == s[..n] + s[n..];
    RunShift(version, p, s[..n], s[n..], 0);
  }

  /** Encoded legal frames take the parser where the meaning of the frames says. */
  lemma {:induction false} FramesAreRead(version: int, context: Context, events: seq<Event>, frames: seq<ClientFrame>,
                                         rest: seq<byte>)
    requires context.Sound() && LegalAll(context, frames)
    ensures AfterAll(context, frames).Sound()
    ensures Run(version, Ready(context, events), EncodeFrames(frames) + rest, 0)
            == Run(version, Ready(AfterAll(context, frames), events + Meaning(context, frames)), rest, 0)
    decreases |frames|
  {
    hide Run, Judge, Legal, EncodeFrame, After, Emitted, MayBegin, Context.Sound;
    if frames == [] {
      assert EncodeFrames(frames) + rest == rest;
      assert events + [] == events;
    } else {
      var f, tail := frames[0], frames[1..];
      var next, more := After(context, f), EncodeFrames(tail) + rest;
      assert EncodeFrames(frames) + rest == EncodeFrame(f) + more;
      OneFrameIsRead(version, context, events, f, more);
      FramesAreRead(version, next, events + Emitted(context, f), tail, rest);
      Assoc(events, Emitted(context, f), Meaning(next, tail));
    }
  }

  lemma OneFrameIsRead(version: int, context: Context, events: seq<Event>, f: ClientFrame, more: seq<byte>)
    requires context.Sound() && Legal(context, f)
    ensures After(context, f).Sound()
    ensures Run(version, Ready(context, events), EncodeFrame(f) + more, 0)
         == Run(version, Ready(After(context, f), events + Emitted(context, f)), more, 0)
  {
    hide Run, Judge, EncodeFrame, MayBegin, Utf8.WellFormed, Utf8.Extendable;
    var s := EncodeFrame(f) + more;
    LegalIsAccepted(version, context, f, more);
    JudgeDecides(version, context, events, s);
    LegalKeepsSound(context, f);
    RunFrom(version, Ready(After(context, f), events + Emitted(context, f)), s, |EncodeFrame(f)|);
    assert s[|EncodeFrame(f)|..] == more;
  }

  /** Every stream whatsoever splits into encoded legal frames and a tail that starts with no complete
      legal frame; the parser has acted on exactly those frames, and its state is decided by the tail. */
  lemma {:induction false} EveryStream(version: int, context: Context, events: seq<Event>, s: seq<byte>)
    returns (frames: seq<ClientFrame>, tail: seq<byte>)
    requires context.Sound()
    ensures LegalAll(context, frames) && AfterAll(context, frames).Sound()
    ensures s == EncodeFrames(frames) + tail
    ensures var r := Run(version, Ready(context, events), s, 0);
            var verdict := Judge(version, AfterAll(context, frames), tail);
            && !verdict.Accept?
            && r.events == events + Meaning(context, frames)
            && (r.Closed? <==> verdict.Refuse?)
            && (r.Closed? ==> r.status == verdict.status)
    decreases |s|
  {
    hide Run, Judge, Legal, EncodeFrame, After, Emitted, MayBegin, Context.Sound;
    JudgeDecides(version, context, events, s);
    var verdict := Judge(version, context, s);
    if verdict.Accept? {
      var f := verdict.frame;
      AcceptIsSound(version, context, s);
      LegalKeepsSound(context, f);
      var next, more := After(context, f), s[|EncodeFrame(f)|..];
      RunFrom(version, Ready(next, events + Emitted(context, f)), s, |EncodeFrame(f)|);
      EncodeFrameIsNotEmpty(f);
      var fs, rest := EveryStream(version, next, events + Emitted(context, f), more);
      frames, tail := [f] + fs, rest;
      assert frames[1..] == fs;
      assert (events + Emitted(context, f)) + Meaning(next, fs) == events + (Emitted(context, f) + Meaning(next, fs));
      assert s == EncodeFrame(f) + more;
      assert EncodeFrames(frames) + tail == EncodeFrame(f) + (EncodeFrames(fs) + tail);
    } else {
      frames, tail := [], s;
      assert events + [] == events;
    }
  }

  lemma EncodeFrameIsNotEmpty(f: ClientFrame)
    requires f.WellFormed()
    ensures |EncodeFrame(f)| > 0
  {
  }

  // ---------------------------------------------------------------------------
  // Violations
  // ---------------------------------------------------------------------------

  /** A frame head that RFC 6455 forbids: reserved bits, a fragmented control frame, an orphan continuation,
      a new data frame inside a message, a missing mask, or a control frame with an extended length. */
  predicate Forbidden(context: Context, b0: byte, b1: byte) {
    || Rsv(b0) != 0
    || (Opcode(b0) >= 8 && !Fin(b0))
    || (Opcode(b0) == OPCODE_CONTINUATION && context.Idle?)
    || (0 < Opcode(b0) < 8 && context.Open?)
    || !Masked(b1)
    || (Opcode(b0) >= 8 && Length7(b1) >= 126)
  }

  /** Nothing is delivered or answered after a forbidden head, whatever follows it. */
  lemma NothingAfterViolation(version: int, frames: seq<ClientFrame>, b0: byte, b1: byte, rest: seq<byte>)
    requires LegalAll(Idle, frames) && Forbidden(AfterAll(Idle, frames), b0, b1)
    ensures Parse(version, EncodeFrames(frames) + ([b0, b1] + rest))
            == Closed(STATUS_PROTOCOL_ERROR, Meaning(Idle, frames))
  {
    hide Run;
    FramesAreRead(version, Idle, [], frames, [b0, b1] + rest);
    assert [] + Meaning(Idle, frames) == Meaning(Idle, frames);
    JudgeDecides(version, AfterAll(Idle, frames), Meaning(Idle, frames), [b0, b1] + rest);
  }

  // ---------------------------------------------------------------------------
  // Messages
  // ---------------------------------------------------------------------------

  /** A ping or a pong of the client. */
  datatype Control = Control(ping: bool, key: Key, payload: seq<byte>)

  /** One fragment of a message, with the control frames sent before it. */
  datatype Fragment = Fragment(before: seq<Control>, form: LengthForm, key: Key, payload: seq<byte>)

  datatype ClientMessage = ClientMessage(text: bool, fragments: seq<Fragment>)

  function ControlFrames(controls: seq<Control>): seq<ClientFrame> {
    if controls == [] then []
    else [ControlFrame(controls[0])] + ControlFrames(controls[1..])
  }

  function ControlFrame(c: Control): ClientFrame {
    ClientFrame(true, if c.ping then OPCODE_PING else OPCODE_PONG, Short, c.key, c.payload)
  }

  function FragmentFrames(opcode: nat, fragments: seq<Fragment>): seq<ClientFrame> {
    if fragments == [] then []
    else
      var p := fragments[0];
      ControlFrames(p.before)
      + ([ClientFrame(|fragments| == 1, opcode, p.form, p.key, p.payload)]
         + FragmentFrames(OPCODE_CONTINUATION, fragments[1..]))
  }

  /** The frames of a client that sends `messages` and then the control frames `trailing`. */
  function ClientFrames(messages: seq<ClientMessage>, trailing: seq<Control>): seq<ClientFrame> {
    if messages == [] then ControlFrames(trailing)
    else
      FragmentFrames(if messages[0].text then OPCODE_TEXT else OPCODE_BINARY, messages[0].fragments)
      + ClientFrames(messages[1..], trailing)
  }

  predicate ControlsSendable(controls: seq<Control>) {
    forall i :: 0 <= i < |controls| ==> |controls[i].payload| <= 125
  }

  predicate FragmentSendable(p: Fragment) {
    ControlsSendable(p.before) && ClientFrame(true, 0, p.form, p.key, p.payload).WellFormed()
  }

  function Payloads(fragments: seq<Fragment>): seq<byte> {
    if fragments == [] then [] else fragments[0].payload + Payloads(fragments[1..])
  }

  ghost predicate Sendable(message: ClientMessage) {
    && message.fragments != []
    && (forall i :: 0 <= i < |message.fragments| ==> FragmentSendable(message.fragments[i]))
    && (message.text ==> Utf8.WellFormed(Payloads(message.fragments)))
  }

  /** One pong for each ping, with the payload of the ping. */
  function Answers(controls: seq<Control>): seq<Event> {
    if controls == [] then []
    else Answer(controls[0]) + Answers(controls[1..])
  }

  function Answer(c: Control): seq<Event> {
    if c.ping then [Pong(c.payload)] else []
  }

  function FragmentAnswers(fragments: seq<Fragment>): seq<Event> {
    if fragments == [] then [] else Answers(fragments[0].before) + FragmentAnswers(fragments[1..])
  }

  /** What the server owes the client: the answers to its pings and each message, in order. */
  function Expected(messages: seq<ClientMessage>, trailing: seq<Control>): seq<Event> {
    if messages == [] then Answers(trailing)
    else
      FragmentAnswers(messages[0].fragments)
      + ([Deliver(Payloads(messages[0].fragments))] + Expected(messages[1..], trailing))
  }

  lemma {:induction false} ControlsMean(context: Context, controls: seq<Control>, rest: seq<ClientFrame>)
    requires context.Sound() && ControlsSendable(controls) && LegalAll(context, rest)
    ensures LegalAll(context, ControlFrames(controls) + rest)
    ensures Meaning(context, ControlFrames(controls) + rest) == Answers(controls) + Meaning(context, rest)
    ensures AfterAll(context, ControlFrames(controls) + rest) == AfterAll(context, rest)
    decreases |controls|
  {
    hide LegalAll, Meaning, AfterAll, Context.Sound, Legal, After, Emitted;
    if controls == [] {
      assert ControlFrames(controls) + rest == rest;
      assert Answers(controls) + Meaning(context, rest) == Meaning(context, rest);
    } else {
      var f, answer := ControlFrame(controls[0]), Answer(controls[0]);
      var more := ControlFrames(controls[1..]);
      ControlsMean(context, controls[1..], rest);
      ControlIsLegal(context, controls[0]);
      FirstFrameMeans(context, f, more + rest);
      Assoc([f], more, rest);
      Assoc(answer, Answers(controls[1..]), Meaning(context, rest));
    }
  }

  lemma ControlIsLegal(context: Context, c: Control)
    requires |c.payload| <= 125
    ensures var f := ControlFrame(c);
            Legal(context, f) && After(context, f) == context && Emitted(context, f) == Answer(c)
  {
  }

  /** The fragments of one message, of which `sofar` has been sent, mean the whole message. */
  lemma {:induction false} FragmentsMean(context: Context, text: bool, fragments: seq<Fragment>, rest: seq<ClientFrame>)
    requires fragments != [] && (context.Open? ==> context.text == text)
    requires forall i :: 0 <= i < |fragments| ==> FragmentSendable(fragments[i])
    requires text ==> Utf8.WellFormed(Sofar(context) + Payloads(fragments))
    requires LegalAll(Idle, rest)
    ensures var opcode := if context.Open? then OPCODE_CONTINUATION else if text then OPCODE_TEXT else OPCODE_BINARY;
            var frames := FragmentFrames(opcode, fragments) + rest;
            && LegalAll(context, frames)
            && Meaning(context, frames)
               == FragmentAnswers(fragments) + ([Deliver(Sofar(context) + Payloads(fragments))] + Meaning(Idle, rest))
            && AfterAll(context, frames) == AfterAll(Idle, rest)
    decreases |fragments|
  {
    hide LegalAll, Meaning, AfterAll, Utf8.WellFormed, Utf8.Extendable, Context.Sound, Legal, After, Emitted,
      ControlFrames, Answers, ControlsSendable;
    var opcode := if context.Open? then OPCODE_CONTINUATION else if text then OPCODE_TEXT else OPCODE_BINARY;
    var p, more := fragments[0], fragments[1..];
    var f := ClientFrame(|fragments| == 1, opcode, p.form, p.key, p.payload);
    var tail := FragmentFrames(OPCODE_CONTINUATION, more) + rest;
    var whole := [Deliver(Sofar(context) + Payloads(fragments))] + Meaning(Idle, rest);
    assert FragmentSendable(p);
    Assoc(Sofar(context), p.payload, Payloads(more));
    FragmentIsLegal(context, text, f, Payloads(more));
    if more == [] {
      assert tail == rest && (Sofar(context) + p.payload) + Payloads(more) == Sofar(context) + p.payload;
      assert FragmentAnswers(more) + whole == whole;
    } else {
      FragmentsMean(Open(text, Sofar(context) + p.payload), text, more, rest);
      assert [] + (FragmentAnswers(more) + whole) == FragmentAnswers(more) + whole;
    }
    FirstFrameMeans(context, f, tail);
    assert Meaning(context, [f] + tail) == FragmentAnswers(more) + whole;
    ControlsMean(context, p.before, [f] + tail);
    Assoc(Answers(p.before), FragmentAnswers(more), whole);
    Assoc([f], FragmentFrames(OPCODE_CONTINUATION, more), rest);
    Assoc(ControlFrames(p.before), [f] + FragmentFrames(OPCODE_CONTINUATION, more), rest);
  }

  /** One fragment on its own: legal, and it either finishes the message or adds to it. */
  lemma FragmentIsLegal(context: Context, text: bool, f: ClientFrame, more: seq<byte>)
    requires context.Open? ==> context.text == text
    requires f.opcode == if context.Open? then OPCODE_CONTINUATION else if text then OPCODE_TEXT else OPCODE_BINARY
    requires f.WellFormed() && (f.fin ==> more == [])
    requires text ==> Utf8.WellFormed((Sofar(context) + f.payload) + more)
    ensures context.Sound() && Legal(context, f)
    ensures After(context, f) == if f.fin then Idle else Open(text, Sofar(context) + f.payload)
    ensures Emitted(context, f) == if f.fin then [Deliver(Sofar(context) + f.payload)] else []
  {
    hide Utf8.WellFormed;
    SentIsSound(context, text, f.payload, more);
    if f.fin {
      assert (Sofar(context) + f.payload) + more == Sofar(context) + f.payload;
    }
  }

  lemma SentIsSound(context: Context, text: bool, payload: seq<byte>, more: seq<byte>)
    requires (context.Open? ==> context.text == text)
    requires text ==> Utf8.WellFormed((Sofar(context) + payload) + more)
    ensures context.Sound() && Open(text, Sofar(context) + payload).Sound()
  {
    assert Sofar(context) + payload + more == Sofar(context) + (payload + more);
  }

  lemma FirstFrameMeans(context: Context, f: ClientFrame, tail: seq<ClientFrame>)
    requires Legal(context, f) && LegalAll(After(context, f), tail)
    ensures LegalAll(context, [f] + tail)
    ensures Meaning(context, [f] + tail) == Emitted(context, f) + Meaning(After(context, f), tail)
    ensures AfterAll(context, [f] + tail) == AfterAll(After(context, f), tail)
  {
    assert ([f] + tail)[1..] == tail;
  }

  lemma {:induction false} MessagesMean(messages: seq<ClientMessage>, trailing: seq<Control>)
    requires ControlsSendable(trailing) && forall i :: 0 <= i < |messages| ==> Sendable(messages[i])
    ensures LegalAll(Idle, ClientFrames(messages, trailing))
    ensures Meaning(Idle, ClientFrames(messages, trailing)) == Expected(messages, trailing)
    ensures AfterAll(Idle, ClientFrames(messages, trailing)) == Idle
    decreases |messages|
  {
    if messages == [] {
      ControlsMean(Idle, trailing, []);
      assert ControlFrames(trailing) + [] == ControlFrames(trailing);
      assert Answers(trailing) + [] == Answers(trailing);
    } else {
      var m := messages[0];
      MessagesMean(messages[1..], trailing);
      assert Sendable(m);
      assert Sofar(Idle) + Payloads(m.fragments) == Payloads(m.fragments);
      FragmentsMean(Idle, m.text, m.fragments, ClientFrames(messages[1..], trailing));
    }
  }

  /** The parser inverts a client: every message, however fragmented, masked and mixed with pings and pongs,
      is delivered once, whole and in order, and every ping is answered. */
  lemma ParserInvertsClient(version: int, messages: seq<ClientMessage>, trailing: seq<Control>)
    requires ControlsSendable(trailing) && forall i :: 0 <= i < |messages| ==> Sendable(messages[i])
    ensures LegalAll(Idle, ClientFrames(messages, trailing))
    ensures Parse(version, EncodeFrames(ClientFrames(messages, trailing)))
            == Running(Start, NoMessage, [], Expected(messages, trailing))
  {
    hide Run;
    MessagesMean(messages, trailing);
    var frames := ClientFrames(messages, trailing);
    FramesAreRead(version, Idle, [], frames, []);
    assert EncodeFrames(frames) + [] == EncodeFrames(frames);
    assert [] + Meaning(Idle, frames) == Meaning(Idle, frames);
    RunEnd(version, Ready(Idle, Expected(messages, trailing)), []);
  }

  // ---------------------------------------------------------------------------
  // Deliveries on arbitrary input
  // ---------------------------------------------------------------------------

  /** The payloads of the data frames among `frames`, joined. */
  function DataPayload(frames: seq<ClientFrame>): seq<byte> {
    if frames == [] then []
    else (if frames[0].opcode < 8 then frames[0].payload else []) + DataPayload(frames[1..])
  }

  /** Frames i to j are one message: an opening data frame, continuations, and control frames between them. */
  predicate IsMessage(frames: seq<ClientFrame>, i: nat, j: nat) {
    && i <= j < |frames|
    && (frames[i].opcode == OPCODE_TEXT || frames[i].opcode == OPCODE_BINARY)
    && frames[j].opcode < 8 && frames[j].fin
    && (forall m :: i < m <= j && frames[m].opcode < 8 ==> frames[m].opcode == OPCODE_CONTINUATION)
    && (forall m :: i <= m < j && frames[m].opcode < 8 ==> !frames[m].fin)
  }

  /** The frames up to j continue the open message and finish it. */
  predicate Finishes(frames: seq<ClientFrame>, j: nat) {
    && j < |frames|
    && frames[j].opcode < 8 && frames[j].fin
    && (forall m :: 0 <= m <= j && frames[m].opcode < 8 ==> frames[m].opcode == OPCODE_CONTINUATION)
    && (forall m :: 0 <= m < j && frames[m].opcode < 8 ==> !frames[m].fin)
  }

  /** The origin of a delivery: i is -1 when the message was open before the first frame. */
  lemma {:induction false} OriginOfDelivery(context: Context, frames: seq<ClientFrame>, k: nat) returns (i: int, j: nat)
    requires LegalAll(context, frames)
    requires k < |Meaning(context, frames)| && Meaning(context, frames)[k].Deliver?
    ensures var d := Meaning(context, frames)[k].payload;
            if i < 0 then
              && context.Open? && Finishes(frames, j) && d == context.sofar + DataPayload(frames[..j + 1])
              && (context.text ==> Utf8.WellFormed(d))
            else
              && IsMessage(frames, i, j) && d == DataPayload(frames[i..j + 1])
              && (frames[i].opcode == OPCODE_TEXT ==> Utf8.WellFormed(d))
    decreases |frames|
  {
    hide Utf8.WellFormed, Utf8.Extendable, EncodeFrame, IsMessage, Finishes, DataPayload;
    var f, e, next := frames[0], Emitted(context, frames[0]), After(context, frames[0]);
    if k < |e| {
      i, j := if f.opcode == OPCODE_CONTINUATION then -1 else 0, 0;
      SingleFrameMessage(frames);
    } else {
      var i', j' := OriginOfDelivery(next, frames[1..], k - |e|);
      j := j' + 1;
      if i' >= 0 {
        i := i' + 1;
        LaterMessage(frames, i', j');
      } else {
        i := if f.opcode == OPCODE_CONTINUATION || f.opcode >= 8 then -1 else 0;
        EarlierMessage(frames, j');
        var rest := DataPayload(frames[1..][..j' + 1]);
        if f.opcode < 8 {
          Assoc(Sofar(context), f.payload, rest);
        }
        assert [] + rest == rest && [] + (f.payload + rest) == f.payload + rest;
      }
    }
  }

  lemma SingleFrameMessage(frames: seq<ClientFrame>)
    requires frames != [] && frames[0].opcode < 8 && frames[0].fin
    ensures DataPayload(frames[..1]) == DataPayload(frames[0..1]) == [] + frames[0].payload == frames[0].payload
    ensures frames[0].opcode == OPCODE_CONTINUATION ==> Finishes(frames, 0)
    ensures frames[0].opcode == OPCODE_TEXT || frames[0].opcode == OPCODE_BINARY ==> IsMessage(frames, 0, 0)
  {
    assert frames[..1] == frames[0..1] == [frames[0]];
    assert DataPayload([frames[0]]) == frames[0].payload + [];
  }

  lemma LaterMessage(frames: seq<ClientFrame>, i: nat, j: nat)
    requires frames != [] && IsMessage(frames[1..], i, j)
    ensures IsMessage(frames, i + 1, j + 1) && frames[i + 1] == frames[1..][i]
    ensures DataPayload(frames[i + 1..j + 2]) == DataPayload(frames[1..][i..j + 1])
  {
    var tail := frames[1..];
    assert forall m :: 0 < m < |frames| ==> frames[m] == tail[m - 1];
    assert tail[i..j + 1] == frames[i + 1..j + 2];
  }

  lemma EarlierMessage(frames: seq<ClientFrame>, j: nat)
    requires frames != [] && Finishes(frames[1..], j)
    ensures DataPayload(frames[0..j + 2]) == DataPayload(frames[..j + 2])
    ensures DataPayload(frames[..j + 2])
         == (if frames[0].opcode < 8 then frames[0].payload else []) + DataPayload(frames[1..][..j + 1])
    ensures frames[0].opcode >= 8 || (frames[0].opcode == OPCODE_CONTINUATION && !frames[0].fin) ==>
              Finishes(frames, j + 1)
    ensures (frames[0].opcode == OPCODE_TEXT || frames[0].opcode == OPCODE_BINARY) && !frames[0].fin ==>
              IsMessage(frames, 0, j + 1)
  {
    var tail := frames[1..];
    assert forall m :: 0 < m < |frames| ==> frames[m] == tail[m - 1];
    assert frames[0..j + 2] == frames[..j + 2];
    assert frames[..j + 2][1..] == tail[..j + 1];
  }

  /** Over any input: each delivered message is the joined payload of one opening data frame and its
      continuations, and is well-formed UTF-8 if it was opened as text. */
  lemma DeliveriesAreMessages(version: int, s: seq<byte>, k: nat)
    returns (frames: seq<ClientFrame>, tail: seq<byte>, i: nat, j: nat)
    requires k < |Parse(version, s).events| && Parse(version, s).events[k].Deliver?
    ensures LegalAll(Idle, frames)
    ensures s == EncodeFrames(frames) + tail
    ensures IsMessage(frames, i, j) && Parse(version, s).events[k].payload == DataPayload(frames[i..j + 1])
    ensures frames[i].opcode == OPCODE_TEXT ==> Utf8.WellFormed(Parse(version, s).events[k].payload)
  {
    hide Run, Judge;
    frames, tail := EveryStream(version, Idle, [], s);
    assert [] + Meaning(Idle, frames) == Meaning(Idle, frames);
    var from: int;
    from, j := OriginOfDelivery(Idle, frames, k);
    i := from;
  }

  // ---------------------------------------------------------------------------
  // Statuses and pongs on arbitrary input
  // ---------------------------------------------------------------------------

  /** The statuses a parse can close with, as numbers. */
  lemma ClosingStatuses(version: int, s: seq<byte>)
    requires Parse(version, s).Closed?
    ensures var status := Parse(version, s).status;
            status == 1000 || status == 1002 || status == 1007 || status == if version >= 13 then 1009 else 1004
  {
    hide Run, Announced, Arrived;
    var frames, tail := EveryStream(version, Idle, [], s);
  }

  lemma {:induction false} PongsOfFrames(context: Context, frames: seq<ClientFrame>)
    requires LegalAll(context, frames)
    ensures forall e <- Meaning(context, frames) :: e.Pong? ==> |e.payload| <= 125
    decreases |frames|
  {
    hide Utf8.WellFormed, Utf8.Extendable;
    if frames != [] {
      PongsOfFrames(After(context, frames[0]), frames[1..]);
    }
  }

  /** Whatever the client sends, no pong is longer than a control frame may be. */
  lemma PongsAreShort(version: int, s: seq<byte>)
    ensures forall e <- Parse(version, s).events :: e.Pong? ==> |e.payload| <= 125
  {
    hide Run, Judge;
    var frames, tail := EveryStream(version, Idle, [], s);
    assert [] + Meaning(Idle, frames) == Meaning(Idle, frames);
    PongsOfFrames(Idle, frames);
  }

  // ---------------------------------------------------------------------------
  // Frames on the wire, byte by byte
  // ---------------------------------------------------------------------------

  /** The judgement of a short unfragmented frame that comes first. */
  lemma JudgeFirst(version: int, f: ClientFrame)
    requires f.fin && f.form == Short && f.WellFormed()
    ensures var s := EncodeFrame(f);
            Judge(version, Idle, s) == if f.opcode == 0 then Refuse(1002) else JudgeWhole(Idle, f)
  {
    hide Mask, Utf8.WellFormed, Utf8.Extendable, FirstFrame, Announced, EncodeFrame;
    var s := EncodeFrame(f);
    assert s + [] == s;
    FirstFrameOfEncoding(f, []);
    FirstFrameFields(s);
    assert [] + f.payload == f.payload;
    if Utf8.WellFormed(f.payload) {
      WellFormedIsExtendable(f.payload);
    }
  }

  /** What such a frame does to a fresh parser. */
  lemma FirstIsRead(version: int, f: ClientFrame)
    requires f.fin && f.form == Short && f.WellFormed()
    ensures var p, verdict := Parse(version, EncodeFrame(f)), Judge(version, Idle, EncodeFrame(f));
            && (verdict.Refuse? ==> p == Closed(verdict.status, []))
            && (verdict == Accept(f) ==> p == Running(Start, NoMessage, [], Emitted(Idle, f)))
  {
    hide Run, EncodeFrame, Judge;
    var s := EncodeFrame(f);
    JudgeDecides(version, Idle, [], s);
    assert [] + Emitted(Idle, f) == Emitted(Idle, f);
    RunEnd(version, Ready(Idle, Emitted(Idle, f)), s);
  }

  /** What a short unfragmented frame does to a fresh parser, by its first byte. */
  lemma OneFrameOnTheWire(version: int, first: byte, key: Key, payload: seq<byte>)
    requires 0x80 <= first < 0x90 && |payload| <= 125
    ensures var p := Parse(version, [first, 128 + |payload|] + key + Mask(key, payload));
            && (first == 0x81 ==>
                  p == if Utf8.WellFormed(payload) then Running(Start, NoMessage, [], [Deliver(payload)])
                       else Closed(1007, []))
            && (first == 0x82 ==> p == Running(Start, NoMessage, [], [Deliver(payload)]))
            && (first == 0x88 ==> p == Closed(1000, []))
            && (first == 0x89 ==> p == Running(Start, NoMessage, [], [Pong(payload)]))
            && (first == 0x8A ==> p == Running(Start, NoMessage, [], []))
            && (first !in {0x81, 0x82, 0x88, 0x89, 0x8A} ==> p == Closed(1002, []))
  {
    hide Parse, Judge, Mask, Utf8.WellFormed;
    var f := ClientFrame(true, first - 128, Short, key, payload);
    assert [first, 128 + |payload|] + key + Mask(key, payload) == EncodeFrame(f);
    JudgeFirst(version, f);
    FirstIsRead(version, f);
    assert [] + payload == payload;
  }

  /** A frame that announces its length in eight bytes is refused at once exactly when the length is above 32 MiB, with
      1009 from protocol version 13 on and 1004 before. */
  lemma OversizedOnTheWire(version: int, length: nat)
    requires length < Pow256(8)
    ensures var p := Parse(version, [0x82, 0xFF] + BigEndian(length, 8));
            if length > 33_554_432 then p == Closed(if version >= 13 then 1009 else 1004, [])
            else p.Running? && p.events == []
  {
    hide Run, BigEndian;
    var s := [0x82, 0xFF] + BigEndian(length, 8);
    assert s[2..10] == BigEndian(length, 8);
    ValueOfBigEndian(length, 8);
    JudgeDecides(version, Idle, [], s);
  }

  /** The bytes that may open a stream: of the opcodes a fresh connection takes, with no reserved bit set, and without
      FIN only those of data frames. */
  predicate MayOpen(first: byte) {
    0x01 <= first <= 0x07 || 0x81 <= first <= 0x8F
  }

  /** A stream is refused by its first byte exactly when that has a reserved bit, continues no message, or is a control
      frame without FIN. */
  lemma FirstByteDecides(version: int, s: seq<byte>)
    requires s != []
    ensures !MayOpen(s[0]) ==> Parse(version, s) == Closed(1002, [])
    ensures MayOpen(s[0]) && |s| == 1 ==> Parse(version, s).Running?
  {
    var p := Step(version, INITIAL, s[0]);
    if p.Closed? {
      ClosedStays(version, p, s, 1);
    } else if |s| == 1 {
      assert Run(version, p, s, 1) == p;
    }
  }

  /** It is refused by its second byte exactly when that has no mask bit or gives a control frame an extended length. */
  lemma SecondByteDecides(version: int, s: seq<byte>)
    requires |s| >= 2 && MayOpen(s[0])
    ensures s[1] < 0x80 || (s[0] >= 0x88 && s[1] >= 0xFE) ==> Parse(version, s) == Closed(1002, [])
    ensures !(s[1] < 0x80 || (s[0] >= 0x88 && s[1] >= 0xFE)) && |s| == 2 ==> Parse(version, s).Running?
  {
    var p := Step(version, INITIAL, s[0]);
    var q := Step(version, p, s[1]);
    assert Run(version, INITIAL, s, 0) == Run(version, p, s, 1) == Run(version, q, s, 2);
    if q.Closed? {
      ClosedStays(version, q, s, 2);
    }
  }

  /** Bytes below 128 are well-formed text. */
  lemma {:induction false} AsciiIsWellFormed(bytes: seq<byte>)
    requires forall b <- bytes :: b < 128
    ensures Utf8.WellFormed(bytes)
  {
    if bytes == [] {
      assert Utf8.EncodeAll([]) == [];
    } else {
      assert forall b <- bytes[1..] :: b in bytes;
      AsciiIsWellFormed(bytes[1..]);
      var text: seq<Utf8.Scalar> :| Utf8.EncodeAll(text) == bytes[1..];
      var v: Utf8.Scalar := bytes[0];
      assert bytes[0] in bytes && Utf8.Encode(v) == [v];
      assert ([v] + text)[1..] == text;
      assert Utf8.EncodeAll([v] + text) == Utf8.Encode(v) + Utf8.EncodeAll(text) == bytes;
    }
  }

  /** The masked text frame of section 5.7 of RFC 6455 is read as "Hello". */
  lemma HelloIsRead(version: int)
    ensures Parse(version, [0x81, 0x85, 0x37, 0xFA, 0x21, 0x3D, 0x7F, 0x9F, 0x4D, 0x51, 0x58])
            == Running(Start, NoMessage, [], [Deliver(Codes("Hello"))])
  {
    hide Run, Parse, Mask, Xor, Utf8.WellFormed;
    var hello: seq<byte> := [0x48, 0x65, 0x6C, 0x6C, 0x6F];
    var key: Key := [0x37, 0xFA, 0x21, 0x3D];
    var masked: seq<byte> := [0x7F, 0x9F, 0x4D, 0x51, 0x58];
    assert hello == Codes("Hello");
    HelloMasked();
    MaskAtAll(key, hello);
    assert Mask(key, hello) == masked;
    AsciiIsWellFormed(hello);
    OneFrameOnTheWire(version, 0x81, key, hello);
    assert [0x81, 0x85] + key + masked == [0x81, 0x85, 0x37, 0xFA, 0x21, 0x3D, 0x7F, 0x9F, 0x4D, 0x51, 0x58];
  }

  lemma HelloMasked()
    ensures Xor(0x48, 0x37) == 0x7F && Xor(0x65, 0xFA) == 0x9F && Xor(0x6C, 0x21) == 0x4D
    ensures Xor(0x6C, 0x3D) == 0x51 && Xor(0x6F, 0x37) == 0x58
  {
    hide Xor, XorBits;
    HighDigits();
    XorOfBytes(0x48, 0x37);
    XorOfBytes(0x65, 0xFA);
    XorOfBytes(0x6C, 0x21);
    XorOfBytes(0x6C, 0x3D);
    XorOfBytes(0x6F, 0x37);
  }

  lemma HighDigits()
    ensures XorBits(0x4, 0x3, 4) == 0x7 && XorBits(0x6, 0xF, 4) == 0x9 && XorBits(0x6, 0x2, 4) == 0x4
    ensures XorBits(0x6, 0x3, 4) == 0x5
  {
    hide XorBits;
    XorFour(0x4, 0x3, 0);
    XorFour(0x6, 0xF, 0);
    XorFour(0x6, 0x2, 0);
    XorFour(0x6, 0x3, 0);
    XorBitsStep(0, 0, 0);
  }
}
