/** The request scheduler of ewdGateway: a queue in front of a pool of connections. */
module Gateway {

  import opened Basics

  /** A queued request; `response` names the response object it must be answered through. */
  datatype Request = Request(query: string, headersString: string, contentEsc: string, httpMethod: string,
                             response: nat)

  /** The parsed answer of a connection: the status if the first header line has one, the headers and the body. */
  datatype Output = Output(httpStatus: Option<string>, headers: map<string, string>, body: string)

  datatype Answer = Answer(request: Request, content: Output)

  // ---------------------------------------------------------------------------
  // The scheduler as a state machine
  // ---------------------------------------------------------------------------

  /** `busy[c]` is the request in flight on connection c. The last three fields are the history. */
  datatype Schedule = Schedule(queue: seq<Request>, busy: seq<Option<Request>>,
                               arrivals: seq<Request>, dispatched: seq<Request>, answers: seq<Answer>)

  datatype Event =
    | Arrival(request: Request)
    | Completion(connection: nat, content: Output)
    | Tick

  function Initial(poolSize: nat): Schedule {
    Schedule([], seq(poolSize, _ => None), [], [], [])
  }

  /** The first free connection, or the size of the pool. */
  function FirstFree(busy: seq<Option<Request>>): (c: nat)
    ensures c <= |busy|
    ensures forall i :: 0 <= i < c ==> busy[i].Some?
    ensures c < |busy| ==> busy[c].None?
  {
    if busy == [] || busy[0].None? then 0 else 1 + FirstFree(busy[1..])
  }

  function Dispatch(g: Schedule): Schedule
    requires g.queue != [] && FirstFree(g.busy) < |g.busy|
  {
    var r := g.queue[0];
    g.(queue := g.queue[1..], busy := g.busy[FirstFree(g.busy) := Some(r)], dispatched := g.dispatched + [r])
  }

  /** Dispatches in order while there is a request and a free connection. */
  function Drain(g: Schedule): Schedule
    decreases |g.queue|
  {
    if g.queue == [] || FirstFree(g.busy) == |g.busy| then g else Drain(Dispatch(g))
  }

  predicate Enabled(g: Schedule, e: Event) {
    e.Completion? ==> e.connection < |g.busy| && g.busy[e.connection].Some?
  }

  function Handle(g: Schedule, e: Event): Schedule
    requires Enabled(g, e)
  {
    match e
    case Arrival(r) => Drain(g.(queue := g.queue + [r], arrivals := g.arrivals + [r]))
    case Completion(c, content) => Drain(Complete(g, c, content))
    case Tick => Drain(g)
  }

  function Complete(g: Schedule, c: nat, content: Output): Schedule
    requires c < |g.busy| && g.busy[c].Some?
  {
    g.(busy := g.busy[c := None], answers := g.answers + [Answer(g.busy[c].value, content)])
  }

  predicate IsRun(g: Schedule, events: seq<Event>)
    decreases |events|
  {
    events == [] || (Enabled(g, events[0]) && IsRun(Handle(g, events[0]), events[1..]))
  }

  function Execute(g: Schedule, events: seq<Event>): Schedule
    requires IsRun(g, events)
    decreases |events|
  {
    if events == [] then g else Execute(Handle(g, events[0]), events[1..])
  }

  // ---------------------------------------------------------------------------
  // Conservation, order and work conservation
  // ---------------------------------------------------------------------------

  function InFlight(busy: seq<Option<Request>>): multiset<Request> {
    if busy == [] then multiset{} else One(busy[0]) + InFlight(busy[1..])
  }

  function Answered(answers: seq<Answer>): multiset<Request> {
    if answers == [] then multiset{}
    else Answered(answers[..|answers| - 1]) + multiset{answers[|answers| - 1].request}
  }

  /** Every accepted request is queued, in flight or answered, exactly once; dispatch is in arrival order. */
  ghost predicate Conserves(g: Schedule) {
    && g.arrivals == g.dispatched + g.queue
    && multiset(g.dispatched) == InFlight(g.busy) + Answered(g.answers)
  }

  /** No request waits while a connection is free. */
  predicate WorkConserving(g: Schedule) {
    g.queue != [] ==> FirstFree(g.busy) == |g.busy|
  }

  function One(b: Option<Request>): multiset<Request> {
    if b.Some? then multiset{b.value} else multiset{}
  }

  lemma {:induction false} InFlightSet(busy: seq<Option<Request>>, c: nat, b: Option<Request>)
    requires c < |busy|
    ensures InFlight(busy[c := b]) + One(busy[c]) == InFlight(busy) + One(b)
    decreases c
  {
    hide One;
    var head, rest := One(busy[0]), InFlight(busy[1..]);
    if c > 0 {
      var changed := InFlight(busy[1..][c - 1 := b]);
      InFlightSet(busy[1..], c - 1, b);
      assert busy[c := b][1..] == busy[1..][c - 1 := b];
      assert (head + changed) + One(busy[c]) == head + (changed + One(busy[c]));
    } else {
      assert busy[c := b][1..] == busy[1..];
      assert (One(b) + rest) + head == (head + rest) + One(b);
    }
  }

  lemma InFlightUpdate(busy: seq<Option<Request>>, c: nat, r: Request)
    requires c < |busy|
    ensures busy[c].None? ==> InFlight(busy[c := Some(r)]) == InFlight(busy) + multiset{r}
    ensures busy[c].Some? ==> InFlight(busy) == InFlight(busy[c := None]) + multiset{busy[c].value}
  {
    InFlightSet(busy, c, Some(r));
    InFlightSet(busy, c, None);
  }

  lemma {:induction false} DrainHolds(g: Schedule)
    requires Conserves(g)
    ensures Conserves(Drain(g)) && WorkConserving(Drain(g))
    ensures |Drain(g).busy| == |g.busy| && Drain(g).arrivals == g.arrivals && Drain(g).answers == g.answers
    ensures g.dispatched <= Drain(g).dispatched
    decreases |g.queue|
  {
    hide Conserves, FirstFree;
    if g.queue != [] && FirstFree(g.busy) < |g.busy| {
      DispatchHolds(g);
      DrainHolds(Dispatch(g));
    }
  }

  lemma DispatchHolds(g: Schedule)
    requires Conserves(g) && g.queue != [] && FirstFree(g.busy) < |g.busy|
    ensures Conserves(Dispatch(g)) && g.dispatched <= Dispatch(g).dispatched
  {
    hide InFlight, Answered;
    InFlightUpdate(g.busy, FirstFree(g.busy), g.queue[0]);
    assert g.dispatched + g.queue == (g.dispatched + [g.queue[0]]) + g.queue[1..];
  }

  lemma ArrivalHolds(g: Schedule, r: Request)
    requires Conserves(g)
    ensures Conserves(g.(queue := g.queue + [r], arrivals := g.arrivals + [r]))
  {
    assert g.dispatched + (g.queue + [r]) == (g.dispatched + g.queue) + [r];
  }

  lemma CompleteHolds(g: Schedule, c: nat, content: Output)
    requires Conserves(g) && c < |g.busy| && g.busy[c].Some?
    ensures Conserves(Complete(g, c, content))
  {
    hide InFlight;
    InFlightUpdate(g.busy, c, g.busy[c].value);
    var answers := Complete(g, c, content).answers;
    assert answers[..|answers| - 1] == g.answers;
  }

  lemma HandleHolds(g: Schedule, e: Event)
    requires Conserves(g) && Enabled(g, e)
    ensures Conserves(Handle(g, e)) && WorkConserving(Handle(g, e)) && |Handle(g, e).busy| == |g.busy|
    ensures g.dispatched <= Handle(g, e).dispatched
    ensures Handle(g, e).arrivals == if e.Arrival? then g.arrivals + [e.request] else g.arrivals
    ensures Handle(g, e).answers ==
            g.answers + if e.Completion? then [Answer(g.busy[e.connection].value, e.content)] else []
  {
    hide Conserves, WorkConserving, Drain;
    match e
    case Arrival(r) =>
      ArrivalHolds(g, r);
      DrainHolds(g.(queue := g.queue + [r], arrivals := g.arrivals + [r]));
    case Completion(c, content) =>
      CompleteHolds(g, c, content);
      DrainHolds(Complete(g, c, content));
    case Tick => DrainHolds(g);
  }

  lemma {:induction false} RunHolds(g: Schedule, events: seq<Event>)
    requires Conserves(g) && IsRun(g, events)
    ensures Conserves(Execute(g, events)) && |Execute(g, events).busy| == |g.busy|
    ensures events != [] || WorkConserving(g) ==> WorkConserving(Execute(g, events))
    ensures g.dispatched <= Execute(g, events).dispatched
    decreases |events|
  {
    hide Conserves, WorkConserving, Handle;
    if events != [] {
      HandleHolds(g, events[0]);
      RunHolds(Handle(g, events[0]), events[1..]);
    }
  }

  /** In every reachable state: requests are conserved, dispatched in arrival order, and none waits
      while a connection is free. */
  lemma Reachable(poolSize: nat, events: seq<Event>)
    requires IsRun(Initial(poolSize), events)
    ensures var g := Execute(Initial(poolSize), events);
            && g.arrivals == g.dispatched + g.queue
            && multiset(g.arrivals) == multiset(g.queue) + InFlight(g.busy) + Answered(g.answers)
            && (g.queue != [] ==> forall c :: 0 <= c < |g.busy| ==> g.busy[c].Some?)
  {
    NothingInFlight(poolSize);
    RunHolds(Initial(poolSize), events);
  }

  lemma {:induction false} NothingInFlight(poolSize: nat)
    ensures InFlight(Initial(poolSize).busy) == multiset{}
  {
    if poolSize > 0 {
      NothingInFlight(poolSize - 1);
      assert Initial(poolSize).busy[1..] == Initial(poolSize - 1).busy;
    }
  }

  // ---------------------------------------------------------------------------
  // Progress
  // ---------------------------------------------------------------------------

  /** Requests accepted and not yet answered. */
  function Outstanding(g: Schedule): nat {
    |g.queue| + |InFlight(g.busy)|
  }

  lemma {:induction false} DrainKeepsOutstanding(g: Schedule)
    ensures Outstanding(Drain(g)) == Outstanding(g)
    decreases |g.queue|
  {
    hide InFlight;
    if g.queue != [] && FirstFree(g.busy) < |g.busy| {
      InFlightUpdate(g.busy, FirstFree(g.busy), g.queue[0]);
      DrainKeepsOutstanding(Dispatch(g));
    }
  }

  lemma {:induction false} SomeInFlight(busy: seq<Option<Request>>)
    ensures |InFlight(busy)| > 0 <==> exists c :: 0 <= c < |busy| && busy[c].Some?
  {
    if busy != [] {
      SomeInFlight(busy[1..]);
      if exists c :: 0 <= c < |busy| && busy[c].Some? {
        var c :| 0 <= c < |busy| && busy[c].Some?;
        assert c > 0 ==> busy[1..][c - 1].Some?;
      }
      if busy[0].None? && |InFlight(busy[1..])| > 0 {
        var c :| 0 <= c < |busy[1..]| && busy[1..][c].Some?;
        assert busy[c + 1].Some?;
      }
    }
  }

  /** While anything is outstanding some connection is at work, so a completion can come. */
  lemma WorkIsUnderWay(g: Schedule)
    requires WorkConserving(g) && g.busy != [] && Outstanding(g) > 0
    ensures exists c :: 0 <= c < |g.busy| && g.busy[c].Some?
  {
    if g.queue != [] {
      assert g.busy[0].Some?;
    } else {
      SomeInFlight(g.busy);
    }
  }

  /** A completion takes one request off those outstanding. */
  lemma CompletionCounts(g: Schedule, e: Event)
    requires e.Completion? && Enabled(g, e)
    ensures Outstanding(Handle(g, e)) + 1 == Outstanding(g)
  {
    hide InFlight, Drain;
    InFlightUpdate(g.busy, e.connection, g.busy[e.connection].value);
    DrainKeepsOutstanding(Complete(g, e.connection, e.content));
  }

  lemma NothingOutstanding(g: Schedule)
    requires Conserves(g) && Outstanding(g) == 0
    ensures g.queue == [] && (forall c :: 0 <= c < |g.busy| ==> g.busy[c].None?)
    ensures Answered(g.answers) == multiset(g.arrivals)
  {
    hide InFlight, Answered;
    SomeInFlight(g.busy);
    assert g.dispatched + [] == g.dispatched;
  }

  /** Without further arrivals, as many completions as there are outstanding requests answer everything. */
  lemma {:induction false} CompletionsFinish(g: Schedule, events: seq<Event>)
    requires Conserves(g) && WorkConserving(g) && IsRun(g, events)
    requires (forall i :: 0 <= i < |events| ==> events[i].Completion?) && |events| == Outstanding(g)
    ensures var end := Execute(g, events);
            && end.queue == [] && (forall c :: 0 <= c < |end.busy| ==> end.busy[c].None?)
            && end.arrivals == g.arrivals && Answered(end.answers) == multiset(g.arrivals)
    decreases |events|
  {
    hide Conserves, WorkConserving, Handle, Outstanding, InFlight, Answered;
    if events == [] {
      NothingOutstanding(g);
    } else {
      CompletionCounts(g, events[0]);
      HandleHolds(g, events[0]);
      CompletionsFinish(Handle(g, events[0]), events[1..]);
    }
  }

  /** And there are such completions: with a connection at all, everything accepted can be answered. */
  lemma {:induction false} AllCanBeAnswered(g: Schedule, content: Output) returns (events: seq<Event>)
    requires Conserves(g) && WorkConserving(g) && g.busy != []
    ensures IsRun(g, events) && |events| == Outstanding(g)
    ensures forall i :: 0 <= i < |events| ==> events[i].Completion?
    ensures Answered(Execute(g, events).answers) == multiset(g.arrivals)
    decreases Outstanding(g)
  {
    hide Conserves, WorkConserving, Handle, Outstanding, InFlight, Answered;
    events := [];
    if Outstanding(g) > 0 {
      WorkIsUnderWay(g);
      var c :| 0 <= c < |g.busy| && g.busy[c].Some?;
      var e := Completion(c, content);
      CompletionCounts(g, e);
      HandleHolds(g, e);
      var rest := AllCanBeAnswered(Handle(g, e), content);
      events := [e] + rest;
      assert events[1..] == rest;
    }
    CompletionsFinish(g, events);
  }

  // ---------------------------------------------------------------------------
  // The gateway object
  // ---------------------------------------------------------------------------

  /** A connection of the pool: its child process has been written the requests in `stdin`. */
  datatype Cachey = Cachey(isAvailable: bool, response: nat, stdin: seq<Request>)

  /** What has been written to a browser: the response object, and what went out through it. */
  datatype Sent = Sent(response: nat, output: Output)

  /** An answer as it goes out: an empty status becomes 200, a missing or empty content type becomes HTML, and the rest
      is unchanged. */
  predicate GoesOutAs(content: Output, sent: Output) {
    && sent.body == content.body
    && sent.httpStatus == (if content.httpStatus == Some("") then Some("200") else content.httpStatus)
    && sent.headers.Keys == content.headers.Keys + {"Content-type"}
    && (forall name <- content.headers :: name != "Content-type" ==> sent.headers[name] == content.headers[name])
    && sent.headers["Content-type"] ==
       if "Content-type" in content.headers && content.headers["Content-type"] != ""
       then content.headers["Content-type"] else "text/html"
  }

  /** The defaults of an answer. */
  method WithDefaults(content: Output) returns (output: Output)
    ensures GoesOutAs(content, output)
  {
    var headers, httpStatus := content.headers, content.httpStatus;
    if "Content-type" !in headers || headers["Content-type"] == "" {
      headers := headers["Content-type" := "text/html"];
    }
    if httpStatus == Some("") {
      httpStatus := Some("200");
    }
    output := Output(httpStatus, headers, content.body);
  }

  /** Each answer was sent through the response object of its own request. */
  ghost predicate SentFor(sent: seq<Sent>, answers: seq<Answer>) {
    && |sent| == |answers|
    && forall i :: 0 <= i < |sent| ==>
         sent[i].response == answers[i].request.response && GoesOutAs(answers[i].content, sent[i].output)
  }

  /** A connection and the request in flight on it: a busy one holds the response object of that request,
      which is the last one written to its process, and `count` is the number of requests written to it. */
  predicate Holds(c: Cachey, inFlight: Option<Request>, count: nat) {
    && (c.isAvailable <==> inFlight.None?)
    && |c.stdin| == count
    && (inFlight.Some? ==>
          c.response == inFlight.value.response && c.stdin != [] && c.stdin[|c.stdin| - 1] == inFlight.value)
  }

  class EwdGateway {
    const poolSize: nat
    var cachey: seq<Cachey>
    var requestQueue: seq<Request>
    var processingQueue: bool
    var requestsByConnection: seq<nat>
    var connectionUpdate: bool
    var totalRequests: nat
    var maxQueueLength: nat
    var queueEvents: nat
    var sent: seq<Sent>
    ghost var schedule: Schedule

    /** The pool, the counters and what was sent agree with the schedule. */
    ghost predicate Consistent()
      reads this
    {
      && |cachey| == |requestsByConnection| == |schedule.busy| == poolSize
      && totalRequests == |schedule.arrivals| && |requestQueue| <= maxQueueLength
      && SentFor(sent, schedule.answers)
      && forall c :: 0 <= c < poolSize ==> Holds(cachey[c], schedule.busy[c], requestsByConnection[c])
    }

    ghost predicate Valid()
      reads this
    {
      Consistent() && requestQueue == schedule.queue
    }

    constructor (poolSize: nat)
      ensures Valid() && schedule == Initial(poolSize) && !processingQueue && this.poolSize == poolSize
    {
      this.poolSize := poolSize;
      cachey := seq(poolSize, _ => Cachey(true, 0, []));
      requestQueue, processingQueue, connectionUpdate := [], false, false;
      requestsByConnection := seq(poolSize, _ => 0);
      totalRequests, maxQueueLength, queueEvents, sent := 0, 0, 0, [];
      schedule := Initial(poolSize);
    }

    /** Claims the first free connection; -1 stands for the `false` of the source. */
    method GetConnection() returns (connection: int)
      requires Consistent()
      modifies this`cachey
      ensures FirstFree(schedule.busy) == poolSize ==> connection == -1 && cachey == old(cachey)
      ensures FirstFree(schedule.busy) < poolSize ==>
                && connection == FirstFree(schedule.busy)
                && cachey == old(cachey)[connection := old(cachey)[connection].(isAvailable := false)]
    {
      for i := 0 to poolSize
        invariant cachey == old(cachey) && forall k :: 0 <= k < i ==> schedule.busy[k].Some?
      {
        if cachey[i].isAvailable {
          cachey := cachey[i := cachey[i].(isAvailable := false)];
          return i;
        }
      }
      return -1;
    }

    /** Sends a request that has just been shifted off the queue, if some connection is free. */
    method SendRequestToCachey(queuedRequest: Request) returns (ok: bool)
      requires Consistent() && schedule.queue == [queuedRequest] + requestQueue
      modifies this`cachey, this`requestsByConnection, this`connectionUpdate, this`schedule
      ensures Consistent() && ok == (FirstFree(old(schedule.busy)) < poolSize)
      ensures schedule == if ok then Dispatch(old(schedule)) else old(schedule)
      ensures connectionUpdate == (old(connectionUpdate) || ok)
    {
      var connection := GetConnection();
      if connection == -1 {
        return false;
      }
      requestsByConnection := requestsByConnection[connection := requestsByConnection[connection] + 1];
      connectionUpdate := true;
      cachey := cachey[connection := cachey[connection].(response := queuedRequest.response)];
      cachey := cachey[connection := cachey[connection].(stdin := cachey[connection].stdin + [queuedRequest])];
      schedule := Dispatch(schedule);
      return true;
    }

    /** Drains the queue into the free connections, unless the queue is being drained already. */
    method ProcessQueue()
      requires Valid()
      modifies this
      ensures Valid() && processingQueue == old(processingQueue) && sent == old(sent)
      ensures schedule == if processingQueue then old(schedule) else Drain(old(schedule))
      ensures totalRequests == old(totalRequests) && maxQueueLength == old(maxQueueLength)
      ensures queueEvents == old(queueEvents) + if processingQueue || old(requestQueue) == [] then 0 else 1
      ensures connectionUpdate == (old(connectionUpdate) || |schedule.dispatched| > |old(schedule).dispatched|)
    {
      if processingQueue || |requestQueue| == 0 {
        return;
      }
      processingQueue := true;
      queueEvents := queueEvents + 1;
      var okToProcess := true;
      while okToProcess
        invariant Valid() && Drain(schedule) == Drain(old(schedule)) && sent == old(sent)
        invariant totalRequests == old(totalRequests) && maxQueueLength == old(maxQueueLength)
        invariant queueEvents == old(queueEvents) + 1 && |schedule.dispatched| >= |old(schedule).dispatched|
        invariant connectionUpdate == (old(connectionUpdate) || |schedule.dispatched| > |old(schedule).dispatched|)
        invariant okToProcess ==> requestQueue != []
        invariant !okToProcess ==> requestQueue == [] || FirstFree(schedule.busy) == poolSize
        decreases |requestQueue|, okToProcess
      {
        var queuedRequest := requestQueue[0];
        requestQueue := requestQueue[1..];
        okToProcess := SendRequestToCachey(queuedRequest);
        if !okToProcess {
          requestQueue := [queuedRequest] + requestQueue;
        }
        if |requestQueue| == 0 {
          okToProcess := false;
        }
      }
      processingQueue := false;
    }

    /** A request arrives. */
    method AddToQueue(request: Request)
      requires Valid() && !processingQueue
      modifies this
      ensures Valid() && !processingQueue && schedule == Handle(old(schedule), Arrival(request))
      ensures sent == old(sent) && totalRequests == old(totalRequests) + 1
      ensures maxQueueLength ==
              if |old(requestQueue)| + 1 > old(maxQueueLength) then |old(requestQueue)| + 1 else old(maxQueueLength)
    {
      requestQueue := requestQueue + [request];
      totalRequests := totalRequests + 1;
      if |requestQueue| > maxQueueLength {
        maxQueueLength := |requestQueue|;
      }
      schedule := schedule.(queue := schedule.queue + [request], arrivals := schedule.arrivals + [request]);
      ProcessQueue();
    }

    /** An answer is complete on a busy connection. It goes out through the response object of the request
        that was in flight there. */
    method CacheyOutput(connection: nat, content: Output)
      requires Valid() && !processingQueue && Enabled(schedule, Completion(connection, content))
      modifies this
      ensures Valid() && !processingQueue && schedule == Handle(old(schedule), Completion(connection, content))
      ensures |sent| == |old(sent)| + 1 && sent[..|old(sent)|] == old(sent)
      ensures sent[|old(sent)|].response == old(schedule.busy[connection]).value.response
      ensures GoesOutAs(content, sent[|old(sent)|].output)
      ensures totalRequests == old(totalRequests) && maxQueueLength == old(maxQueueLength)
    {
      hide GoesOutAs;
      var output := WithDefaults(content);
      sent := sent + [Sent(cachey[connection].response, output)];
      cachey := cachey[connection := cachey[connection].(isAvailable := true)];
      schedule := Complete(schedule, connection, content);
      ProcessQueue();
    }
  }
}
