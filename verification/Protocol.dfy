/**
  The append protocol as a state machine: one client that retries without knowing whether its last
  request landed, a network that loses, delays and repeats requests and replies, and a server whose
  database calls may fail. The server side of every step is `Appends.Append`.
 */
module Protocol {
  import opened Prelude
  import opened Model
  import opened LogChunks
  import opened Appends

  // ----- the client's view of one attempt -----

  /** The server's own reply, no reply at all, or a reply made up by something in between. */
  datatype Reply = Arrives | Vanishes | Replaced(code: int)

  /** Fate of one attempt; `bound` says whether the server could look the artifact up. */
  datatype Net = Net(delivered: bool, bound: bool, env: Env, reply: Reply)

  datatype Verdict = Accepted | Retriable | Terminal

  /** Anything but 200 is an error, and an error is worth a retry from 500 up. */
  function Classify(code: int): Verdict {
    if code == OK then Accepted
    else if code >= 500 then Retriable
    else Terminal
  }

  function Judge(net: Net, status: int): Verdict {
    match net.reply
    case Vanishes => Retriable
    case Replaced(code) => Classify(code)
    case Arrives => if net.delivered then Classify(status) else Retriable
  }

  /** The handler of a chunk posted to an open artifact, behind the artifact lookup. */
  function Handle(log: Log, req: AppendReq, bound: bool, env: Env): (Log, int) {
    if bound then Append(log, req, env) else (log, SERVER_ERROR)
  }

  // ----- the machine -----

  /** `queue` holds the chunk being sent, if any, and those waiting behind it. */
  datatype Client = Client(offset: int, queue: seq<Bytes>, failed: bool)

  /**
    `sent` is every request ever put on the wire. `acked` and `appended` are history: the bytes the
    client believes stored and the bytes it was given.
   */
  datatype World = World(log: Log, client: Client, sent: set<AppendReq>, acked: Bytes, appended: Bytes)

  datatype Event =
    | Enqueue(chunk: Bytes)
    | Attempt(net: Net)
    | Stray(req: AppendReq, bound: bool, env: Env)  // an old request arrives (again); nobody waits for the reply

  function Current(c: Client): AppendReq
    requires c.queue != []
  {
    AppendReq(c.offset, |c.queue[0]|, [], c.queue[0])
  }

  function Step(w: World, e: Event): World {
    match e
    case Enqueue(chunk) =>
      w.(client := w.client.(queue := w.client.queue + [chunk]), appended := w.appended + chunk)
    case Stray(req, bound, env) =>
      w.(log := Handle(w.log, req, bound, env).0)
    case Attempt(net) =>
      if w.client.failed || w.client.queue == [] then w
      else
        var req := Current(w.client);
        var (log', status) := Handle(w.log, req, net.bound, net.env);
        var w' := w.(log := if net.delivered then log' else w.log, sent := w.sent + {req});
        match Judge(net, status)
        case Accepted =>
          w'.(client := w.client.(offset := w.client.offset + req.size, queue := w.client.queue[1..]),
              acked := w.acked + req.bytes)
        case Retriable => w'
        case Terminal => w'.(client := w.client.(failed := true))
  }

  /** Nothing between client and server invents a 200, and only requests once sent come back. */
  predicate Possible(w: World, e: Event) {
    match e
    case Enqueue(_) => true
    case Attempt(net) => net.reply != Replaced(OK)
    case Stray(req, _, _) => req in w.sent
  }

  function Run(w: World, events: seq<Event>): World
    decreases |events|
  {
    if events == [] then w else Run(Step(w, events[0]), events[1..])
  }

  lemma {:induction false} RunSnoc(w: World, events: seq<Event>, e: Event)
    ensures Run(w, events + [e]) == Step(Run(w, events), e)
    decreases |events|
  {
    hide Step;
    if events == [] {
      assert events + [e] == [e] && [e][1..] == [];
    } else {
      assert (events + [e])[0] == events[0] && (events + [e])[1..] == events[1..] + [e];
      RunSnoc(Step(w, events[0]), events[1..], e);
    }
  }

  predicate RunPossible(w: World, events: seq<Event>)
    decreases |events|
  {
    events == [] || (Possible(w, events[0]) && RunPossible(Step(w, events[0]), events[1..]))
  }

  const INITIAL := World(Log(APPENDING, 0, []), Client(0, [], false), {}, [], [])

  /** Concatenation of all chunks handed to the client along a run. */
  function Given(events: seq<Event>): Bytes {
    if events == [] then []
    else (if events[0].Enqueue? then events[0].chunk else []) + Given(events[1..])
  }

  // ----- invariant -----

  /** The server holds exactly the acknowledged bytes. */
  ghost predicate Settled(w: World) {
    && Tiles(w.log.chunks, 0, w.log.size)
    && Content(w.log.chunks) == w.acked
  }

  /** The current chunk has landed but the client does not know it. */
  ghost predicate Ahead(w: World) {
    && w.client.queue != [] && w.client.queue[0] != []
    && Tiles(w.log.chunks, 0, w.log.size)
    && Content(w.log.chunks) == w.acked + w.client.queue[0]
    && LastChunk(w.log.chunks) == Some(ChunkOf(Current(w.client)))
  }

  /** The size was raised for the current chunk, which was never inserted. */
  ghost predicate Torn(w: World) {
    && w.client.queue != [] && w.client.queue[0] != []
    && Tiles(w.log.chunks, 0, |w.acked|)
    && Content(w.log.chunks) == w.acked
    && w.log.size == |w.acked| + |w.client.queue[0]|
  }

  /** A request on the wire is the current one or lies wholly before the client's offset. */
  ghost predicate WireOk(w: World) {
    forall r <- w.sent ::
      && r.content == [] && r.size == |r.bytes|
      && (r.byteOffset + r.size <= w.client.offset || (w.client.queue != [] && r == Current(w.client)))
  }

  ghost predicate Inv(w: World) {
    && w.log.state == APPENDING
    && w.client.offset == |w.acked|
    && w.appended == w.acked + Flatten(w.client.queue)
    && (Settled(w) || Ahead(w) || Torn(w))
    && WireOk(w)
  }

  /** A request on the wire reaches the server: what the table can become. */
  lemma Delivery(w: World, r: AppendReq, bound: bool, env: Env)
    requires Inv(w)
    requires r.content == [] && r.size == |r.bytes|
    requires r.byteOffset + r.size <= w.client.offset || (w.client.queue != [] && r == Current(w.client))
    ensures var (log', status) := Handle(w.log, r, bound, env);
            && (Inv(w.(log := log')))
            && (w.client.queue != [] && r == Current(w.client) && status == OK ==> Ahead(w.(log := log')))
            && (w.client.queue != [] && r == Current(w.client) && r.size > 0 && bound ==>
                status == (if Torn(w) then BAD_REQUEST
                           else if Ahead(w) then (if env.lookup then OK else BAD_REQUEST)
                           else if !env.update.Ok? then SERVER_ERROR
                           else if env.insert.Ok? then OK else BAD_REQUEST))
            && (!Torn(w) && (Settled(w) ==> !Tears(w.log, r, env)) ==> !Torn(w.(log := log')))
  {
    hide Tiles, Spaced, Content, OrderByOffset;
    if bound {
      var (log', status) := Append(w.log, r, env);
      var n := if Torn(w) then |w.acked| else w.log.size;
      TilesIffFull(w.log.chunks, 0, n);
      SpacedBounds(w.log.chunks, 0, n);
      SpacedIsOrdered(w.log.chunks, 0, n);
      if Extends(w.log, r) {
        assert w.client.queue != [] && r == Current(w.client) && Settled(w);
        AppendOnce(w.log, r, env);
        SpacedIsOrdered(log'.chunks, 0, log'.size);
        TilesIffFull(log'.chunks, 0, log'.size);
      }
    }
  }

  lemma StepKeepsInv(w: World, e: Event)
    requires Inv(w) && Possible(w, e)
    ensures Inv(Step(w, e))
  {
    match e {
      case Enqueue(chunk) =>
        EnqueueKeepsInv(w, chunk);
      case Stray(req, bound, env) =>
        hide Tiles, Content, LastChunk, Handle;
        Delivery(w, req, bound, env);
      case Attempt(net) =>
        AttemptKeepsInv(w, net);
    }
  }

  lemma EnqueueKeepsInv(w: World, chunk: Bytes)
    requires Inv(w)
    ensures Inv(Step(w, Enqueue(chunk)))
  {
    hide Tiles, Content, LastChunk;
    FlattenSnoc(w.client.queue, chunk);
  }

  lemma AttemptKeepsInv(w: World, net: Net)
    requires Inv(w) && Possible(w, Attempt(net))
    ensures Inv(Step(w, Attempt(net)))
  {
    hide Tiles, Content, LastChunk, Handle;
    if !w.client.failed && w.client.queue != [] {
      var req := Current(w.client);
      Delivery(w, req, net.bound, net.env);
      if Judge(net, Handle(w.log, req, net.bound, net.env).1) == Accepted {
        assert w.appended == w.acked + (req.bytes + Flatten(w.client.queue[1..]));
      }
    }
  }

  lemma {:induction false} FlattenSnoc(queue: seq<Bytes>, chunk: Bytes)
    ensures Flatten(queue + [chunk]) == Flatten(queue) + chunk
  {
    if queue == [] {
      assert [chunk][1..] == [];
    } else {
      FlattenSnoc(queue[1..], chunk);
      assert (queue + [chunk])[1..] == queue[1..] + [chunk];
    }
  }

  lemma {:induction false} RunKeepsInv(w: World, events: seq<Event>)
    requires Inv(w) && RunPossible(w, events)
    ensures Inv(Run(w, events))
    ensures Run(w, events).appended == w.appended + Given(events)
    decreases |events|
  {
    hide Inv, Step, Possible;
    if events != [] {
      StepKeepsInv(w, events[0]);
      StepGives(w, events[0]);
      RunKeepsInv(Step(w, events[0]), events[1..]);
    }
  }

  lemma StepGives(w: World, e: Event)
    ensures Step(w, e).appended == w.appended + if e.Enqueue? then e.chunk else []
  {
  }

  // ----- exactly once -----

  /** Nothing is waiting and no terminal error was seen: what a flush that returns nil observes. */
  predicate Drained(c: Client) {
    !c.failed && c.queue == []
  }

  lemma InvMeansPrefix(w: World)
    requires Inv(w)
    ensures Content(w.log.chunks) <= w.appended
    ensures w.client.queue == [] ==>
              Tiles(w.log.chunks, 0, w.log.size) && Content(w.log.chunks) == w.appended == w.acked
  {
    if w.client.queue != [] {
      assert w.appended == w.acked + (w.client.queue[0] + Flatten(w.client.queue[1..]));
      assert w.acked + w.client.queue[0] <= w.appended;
    }
  }

  /**
    Exactly-once delivery over whole runs. At every moment the stored bytes are a prefix of the
    bytes handed to the client; and once the client is drained the rows tile [0, Size) and hold
    those bytes exactly, once each and in order.
   */
  lemma ExactlyOnce(events: seq<Event>)
    requires RunPossible(INITIAL, events)
    ensures var w := Run(INITIAL, events);
            && Content(w.log.chunks) <= Given(events)
            && (Drained(w.client) ==>
                  && Tiles(w.log.chunks, 0, w.log.size)
                  && Content(w.log.chunks) == Given(events)
                  && w.log.size == w.client.offset == |Given(events)|)
  {
    RunKeepsInv(INITIAL, events);
    var w := Run(INITIAL, events);
    InvMeansPrefix(w);
    TilesIffFull(w.log.chunks, 0, w.log.size);
  }

  // ----- when the client gives up -----

  /**
    Exactly which attempts end the client: a client error made up on the way, or the server's own
    refusal. The server refuses an empty chunk always, and any other only for a torn table, a
    repeat it could not check, or a failed insert.
   */
  lemma GivesUpExactly(w: World, net: Net)
    requires Inv(w) && Possible(w, Attempt(net))
    requires !w.client.failed && w.client.queue != []
    ensures Step(w, Attempt(net)).client.failed <==>
            || (net.reply.Replaced? && net.reply.code < 500)
            || (net.reply.Arrives? && net.delivered && net.bound &&
                (|| w.client.queue[0] == []
                 || Torn(w)
                 || (Ahead(w) && !net.env.lookup)
                 || (Settled(w) && net.env.update.Ok? && !net.env.insert.Ok?)))
  {
    Delivery(w, Current(w.client), net.bound, net.env);
    if w.client.queue[0] != [] {
      PhasesDisjoint(w);
    }
  }

  /**
    The attempt carries the chunk across: the request reaches the server, nothing stands in the way
    of storing it or of recognising it, and the server's reply comes back.
   */
  ghost predicate Carries(w: World, net: Net)
    requires w.client.queue != []
  {
    && net.reply.Arrives? && net.delivered && net.bound
    && w.client.queue[0] != []
    && !Torn(w)
    && (Ahead(w) ==> net.env.lookup)
    && (Settled(w) ==> net.env.update.Ok? && net.env.insert.Ok?)
  }

  /** Such an attempt takes the chunk off the queue, and no other does: the client stays where it was. */
  lemma AdvancesExactly(w: World, net: Net)
    requires Inv(w) && Possible(w, Attempt(net))
    requires !w.client.failed && w.client.queue != []
    ensures var w' := Step(w, Attempt(net));
            if Carries(w, net) then
              && w'.client == Client(w.client.offset + |w.client.queue[0]|, w.client.queue[1..], false)
              && w'.acked == w.acked + w.client.queue[0] && Content(w'.log.chunks) == w'.acked
            else
              w'.client.queue == w.client.queue && w'.client.offset == w.client.offset && w'.acked == w.acked
  {
    hide Tiles, Content, LastChunk, Append, WireOk;
    Delivery(w, Current(w.client), net.bound, net.env);
    if w.client.queue[0] != [] {
      PhasesDisjoint(w);
    }
  }

  /** An empty chunk ends the client although nothing fails anywhere. */
  lemma EmptyChunkEndsClient()
    ensures var events := [Enqueue([]), Attempt(Net(true, true, Env(true, Ok, Ok), Arrives))];
            RunPossible(INITIAL, events) && Run(INITIAL, events).client.failed
  {
    var attempt := Attempt(Net(true, true, Env(true, Ok, Ok), Arrives));
    var events := [Enqueue([]), attempt];
    assert events[1..] == [attempt] && [attempt][1..] == [];
    var w := Step(INITIAL, Enqueue([]));
    assert w.client.queue == [[]];
  }

  lemma PhasesDisjoint(w: World)
    requires w.client.queue != [] && w.client.queue[0] != []
    ensures !(Settled(w) && Ahead(w)) && !(Settled(w) && Torn(w)) && !(Ahead(w) && Torn(w))
  {
    TilesIffFull(w.log.chunks, 0, w.log.size);
    assert Ahead(w) || Torn(w) ==> |w.acked + w.client.queue[0]| > |w.acked|;
  }

  /**
    The size update and the chunk insert of a request happen together or not at all, lookups and
    inserts succeed, chunks are not empty (`EmptyChunkEndsClient`), and proxies only report server errors. Requests and
    replies may still be lost, delayed or repeated, and an update may fail.
   */
  predicate Healthy(e: Event) {
    match e
    case Enqueue(chunk) => chunk != []
    case Attempt(net) => HealthyEnv(net.env) && (net.reply.Replaced? ==> net.reply.code >= 500)
    case Stray(_, _, env) => HealthyEnv(env)
  }

  predicate HealthyEnv(env: Env) {
    env.lookup && !env.update.FailedLate? && env.insert.Ok?
  }

  /** The server is at the client's offset or exactly one chunk ahead of it. */
  ghost predicate InStep(w: World) {
    && Inv(w)
    && !w.client.failed
    && (forall c <- w.client.queue :: c != [])
    && (Settled(w) || Ahead(w))
    && (w.log.size == w.client.offset
        || (w.client.queue != [] && w.log.size == w.client.offset + |w.client.queue[0]|))
  }

  /** That is, the client is alive, has no empty chunk to send, and no update was left without its chunk. */
  lemma InStepIsUntorn(w: World)
    requires Inv(w)
    ensures InStep(w) <==> !w.client.failed && (forall c <- w.client.queue :: c != []) && !Torn(w)
  {
    hide WireOk, LastChunk, Content;
    TilesIffFull(w.log.chunks, 0, w.log.size);
    if w.client.queue != [] && w.client.queue[0] != [] {
      PhasesDisjoint(w);
    }
  }

  lemma StepKeepsInStep(w: World, e: Event)
    requires InStep(w) && Possible(w, e) && Healthy(e)
    ensures InStep(Step(w, e))
  {
    StepKeepsInv(w, e);
    var w' := Step(w, e);
    if w.client.queue != [] {
      assert w.client.queue[0] in w.client.queue;
      PhasesDisjoint(w);
    }
    match e {
      case Enqueue(chunk) =>
      case Stray(req, bound, env) =>
        Delivery(w, req, bound, env);
      case Attempt(net) =>
        if w.client.queue != [] {
          Delivery(w, Current(w.client), net.bound, net.env);
          GivesUpExactly(w, net);
        }
    }
    TilesIffFull(w'.log.chunks, 0, w'.log.size);
    forall c <- w'.client.queue ensures c != [] {
      assert c in w.client.queue || e == Enqueue(c);
    }
  }

  /** Lost replies never kill a healthy client. */
  lemma {:induction false} HealthyRunNeverFails(w: World, events: seq<Event>)
    requires InStep(w) && RunPossible(w, events)
    requires forall e <- events :: Healthy(e)
    ensures InStep(Run(w, events))
    decreases |events|
  {
    if events != [] {
      StepKeepsInStep(w, events[0]);
      HealthyRunNeverFails(Step(w, events[0]), events[1..]);
    }
  }

  /** The request gets through, every call it makes is answered, and so is the client. */
  predicate Clean(e: Event) {
    && e.Attempt? && e.net.reply.Arrives? && e.net.delivered && e.net.bound
    && e.net.env.lookup && e.net.env.update.Ok? && e.net.env.insert.Ok?
  }

  function CountClean(events: seq<Event>): nat {
    if events == [] then 0 else (if Clean(events[0]) then 1 else 0) + CountClean(events[1..])
  }

  lemma StepDrains(w: World, e: Event)
    requires InStep(w) && Possible(w, e) && !e.Enqueue?
    ensures var queue, queue' := w.client.queue, Step(w, e).client.queue;
            |queue'| <= |queue| && (Clean(e) && queue != [] ==> |queue'| == |queue| - 1)
  {
    hide Inv, Settled, Ahead, Torn, Handle;
    if e.Attempt? && w.client.queue != [] {
      AdvancesExactly(w, e.net);
      assert w.client.queue[0] in w.client.queue;
      InStepIsUntorn(w);
    }
  }

  /** As many attempts that get through as there are chunks waiting empty the queue, whatever else happens in between. */
  lemma {:induction false} HealthyRunDrains(w: World, events: seq<Event>)
    requires InStep(w) && RunPossible(w, events)
    requires forall e <- events :: Healthy(e) && !e.Enqueue?
    ensures |Run(w, events).client.queue| <= Max(0, |w.client.queue| - CountClean(events))
    ensures Run(w, events).appended == w.appended
    decreases |events|
  {
    hide InStep, Step, Clean, Healthy, Possible;
    if events != [] {
      assert events[0] in events;
      StepKeepsInStep(w, events[0]);
      StepDrains(w, events[0]);
      StepGives(w, events[0]);
      HealthyRunDrains(Step(w, events[0]), events[1..]);
    }
  }

  /**
    Delivery in full: after any healthy run, as many attempts that get through as there are chunks
    left to send, among any losses and repeats, leave the client drained and the whole of what it
    was given in the rows.
   */
  lemma EverythingArrives(before: seq<Event>, after: seq<Event>)
    requires RunPossible(INITIAL, before) && RunPossible(Run(INITIAL, before), after)
    requires forall e <- before :: Healthy(e)
    requires forall e <- after :: Healthy(e) && !e.Enqueue?
    requires CountClean(after) >= |Run(INITIAL, before).client.queue|
    ensures var w := Run(Run(INITIAL, before), after);
            && Drained(w.client)
            && Tiles(w.log.chunks, 0, w.log.size)
            && Content(w.log.chunks) == Given(before)
  {
    hide Inv, Step, Run, RunPossible, Healthy;
    var w0 := Run(INITIAL, before);
    HealthyFromStart(before);
    InitialIsOk();
    RunKeepsInv(INITIAL, before);
    HealthyRunDrains(w0, after);
    HealthyRunNeverFails(w0, after);
    RunKeepsInv(w0, after);
    InvMeansPrefix(Run(w0, after));
  }

  lemma InitialIsOk()
    ensures Inv(INITIAL)
  {
  }

  /** Chunks handed over one after the other are all still to be sent, and are what was given. */
  lemma {:induction false} EnqueueAll(w: World, chunks: seq<Bytes>)
    ensures var events := Enqueues(chunks);
            && RunPossible(w, events) && Given(events) == Flatten(chunks)
            && Run(w, events).client == w.client.(queue := w.client.queue + chunks)
    decreases |chunks|
  {
    if chunks != [] {
      var e := Enqueue(chunks[0]);
      assert Enqueues(chunks) == [e] + Enqueues(chunks[1..]) && Enqueues(chunks)[1..] == Enqueues(chunks[1..]);
      EnqueueAll(Step(w, e), chunks[1..]);
      assert w.client.queue + [chunks[0]] + chunks[1..] == w.client.queue + chunks;
    } else {
      assert w.client.queue + chunks == w.client.queue;
    }
  }

  function Enqueues(chunks: seq<Bytes>): seq<Event> {
    if chunks == [] then [] else [Enqueue(chunks[0])] + Enqueues(chunks[1..])
  }

  lemma HealthyFromStart(events: seq<Event>)
    requires RunPossible(INITIAL, events)
    requires forall e <- events :: Healthy(e)
    ensures InStep(Run(INITIAL, events))
  {
    HealthyRunNeverFails(INITIAL, events);
  }
}
