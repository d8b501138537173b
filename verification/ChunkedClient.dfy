/**
  The client of a chunked artifact: the loop that pushes queued chunks, Flush and Close, against the
  real handlers. Every method is tied to the steps of module Protocol.
 */
module ChunkedClient {
  import opened Prelude
  import opened Model
  import opened LogChunks
  import opened Appends
  import opened Store
  import opened Backend
  import opened Upload
  import opened Handlers
  import B = Buckets
  import P = Protocol

  /** How a round of pushing ended: queue empty, terminal error, or the client's context cancelled. */
  datatype PushResult = Complete | Fatal | Cancelled

  function Attempts(script: seq<P.Net>): seq<P.Event> {
    if script == [] then [] else [P.Attempt(script[0])] + Attempts(script[1..])
  }

  predicate Plausible(script: seq<P.Net>) {
    forall i :: 0 <= i < |script| ==> script[i].reply != P.Replaced(OK)
  }

  /** No attempt of the script kills the client, and enough get through to empty a queue of n chunks. */
  predicate Suffices(script: seq<P.Net>, n: nat) {
    Harmless(script) && P.CountClean(Attempts(script)) >= n
  }

  predicate Harmless(script: seq<P.Net>) {
    forall net <- script :: P.Healthy(P.Attempt(net))
  }

  lemma {:induction false} ScriptIsRun(w: P.World, script: seq<P.Net>)
    requires Plausible(script)
    ensures P.RunPossible(w, Attempts(script))
    ensures Harmless(script) ==> forall e <- Attempts(script) :: P.Healthy(e) && !e.Enqueue?
    decreases |script|
  {
    hide P.Step, P.Healthy;
    if script != [] {
      var first := P.Attempt(script[0]);
      assert ([first] + Attempts(script[1..]))[1..] == Attempts(script[1..]);
      assert script[0] in script;
      ScriptIsRun(P.Step(w, first), script[1..]);
    }
  }

  lemma ScriptDrains(w: P.World, script: seq<P.Net>)
    requires P.InStep(w) && Plausible(script) && Harmless(script)
    ensures var w' := P.Run(w, Attempts(script));
            P.InStep(w') && |w'.client.queue| <= Max(0, |w.client.queue| - P.CountClean(Attempts(script)))
  {
    hide P.InStep, P.Run, P.RunPossible, P.CountClean, P.Healthy, Attempts;
    ScriptIsRun(w, script);
    P.HealthyRunNeverFails(w, Attempts(script));
    P.HealthyRunDrains(w, Attempts(script));
  }

  lemma {:induction false} AttemptsSnoc(w: P.World, script: seq<P.Net>, net: P.Net)
    ensures Attempts(script + [net]) == Attempts(script) + [P.Attempt(net)]
    ensures P.Run(w, Attempts(script + [net])) == P.Step(P.Run(w, Attempts(script)), P.Attempt(net))
    decreases |script|
  {
    hide P.Step, P.Run;
    P.RunSnoc(w, Attempts(script), P.Attempt(net));
    if script == [] {
      assert script + [net] == [net] && [net][1..] == [];
    } else {
      assert (script + [net])[0] == script[0] && (script + [net])[1..] == script[1..] + [net];
      AttemptsSnoc(w, script[1..], net);
    }
  }

  /** What an attempt left at the server, whatever came back. */
  predicate Reached(log: Log, req: AppendReq, net: P.Net, log': Log) {
    log' == if net.delivered && net.bound then Append(log, req, net.env).0 else log
  }

  /** A repeat or late arrival of a request, as it fares at the server. */
  datatype Stray = Stray(req: AppendReq, bound: bool, env: Env)

  /** Those of them that were ever sent. */
  function StrayEvents(strays: seq<Stray>, sent: set<AppendReq>): seq<P.Event> {
    if strays == [] then []
    else
      var last := strays[|strays| - 1];
      StrayEvents(strays[..|strays| - 1], sent)
      + if last.req in sent then [P.Event.Stray(last.req, last.bound, last.env)] else []
  }

  lemma StrayEventsSnoc(w: P.World, strays: seq<Stray>, sent: set<AppendReq>, k: nat)
    requires k < |strays|
    ensures var w' := P.Run(w, StrayEvents(strays[..k], sent));
            P.Run(w, StrayEvents(strays[..k + 1], sent)) ==
            if strays[k].req in sent then P.Step(w', P.Event.Stray(strays[k].req, strays[k].bound, strays[k].env)) else w'
  {
    hide P.Run, P.Step;
    assert strays[..k + 1][..k] == strays[..k];
    P.RunSnoc(w, StrayEvents(strays[..k], sent), P.Event.Stray(strays[k].req, strays[k].bound, strays[k].env));
    assert StrayEvents(strays[..k], sent) + [] == StrayEvents(strays[..k], sent);
  }

  class ChunkedArtifact {
    const server: Backend
    const id: nat
    var offset: int
    var bytestream: seq<Bytes>     // what the channel holds, behind the chunk in hand
    var failed: bool               // the pushing loop has ended with a terminal error
    var closed: bool               // the channel is closed: the last Flush returned an error
    var sent: set<AppendReq>       // every request so far; the network's memory, not the client's
    ghost var acked: Bytes
    ghost var appended: Bytes

    ghost function World(): P.World
      requires id in server.store.entries
      reads this, server
    {
      P.World(LogOf(server.store.entries[id]), P.Client(offset, bytestream, failed), sent, acked, appended)
    }

    /** The artifact is this client's alone: nobody else closed it or appends to it. */
    ghost predicate Valid()
      reads this, server
    {
      server.Valid() && id in server.store.entries && P.Inv(World())
    }

    constructor (server: Backend, artifact: Artifact)
      requires server.Valid() && Bound(server.store, artifact) && artifact.id in server.store.entries
      requires artifact.state == APPENDING && artifact.size == 0 && server.store.entries[artifact.id].chunks == []
      ensures Valid() && this.server == server && id == artifact.id && World() == P.INITIAL && !closed
    {
      this.server, id := server, artifact.id;
      offset, bytestream, failed, closed := 0, [], false, false;
      sent, acked, appended := {}, [], [];
      new;
      P.InitialIsOk();
    }

    method AppendLog(chunk: Bytes)
      requires Valid() && !closed
      modifies this`bytestream, this`appended
      ensures Valid() && World() == P.Step(old(World()), P.Enqueue(chunk))
      ensures bytestream == old(bytestream) + [chunk] && appended == old(appended) + chunk
    {
      hide P.Inv, P.Step;
      P.StepKeepsInv(World(), P.Enqueue(chunk));
      EnqueueIs(World(), chunk);
      bytestream := bytestream + [chunk];
      appended := appended + chunk;
    }

    static lemma EnqueueIs(w: P.World, chunk: Bytes)
      ensures P.Step(w, P.Enqueue(chunk)) ==
              w.(client := w.client.(queue := w.client.queue + [chunk]), appended := w.appended + chunk)
    {
    }

    /** A post of a chunk reaches the server: artifact lookup, then the dispatcher. */
    method Deliver(req: AppendReq, bound: bool, env: Env) returns (status: int)
      requires server.Valid() && id in server.store.entries
      requires server.store.entries[id].row.state == APPENDING
      modifies server`store, server`log, server`dbFaults, server`putAttempts, server`bytesUploaded, server`s3Faults
      ensures server.Valid() && old(server.log) <= server.log && id in server.store.entries
      ensures (LogOf(server.store.entries[id]), status) == P.Handle(old(LogOf(server.store.entries[id])), req, bound, env)
      ensures var log, log' := old(LogOf(server.store.entries[id])), LogOf(server.store.entries[id]);
              log' == if bound then Append(log, req, env).0 else log
      ensures OnlyArtifact(old(server.store), server.store, id)
      ensures NoFewerFaults(old(server.dbFaults), old(server.s3Faults), server)
    {
      hide Inv, Legal, Replay, OnlyArtifact, Append, Lands;
      OnlyArtifactRefl(server.store, id);
      ChunkedByState(server.store, id);
      if !bound {
        return SERVER_ERROR;
      }
      status := PostArtifact(server, server.store.entries[id].row, Post(None, [], Some(req), env));
      LogOfAppendEntry(old(server.store.entries)[id], req, env);
    }

    /** An old request turns up again; its reply goes nowhere. */
    method StrayDelivery(req: AppendReq, bound: bool, env: Env)
      requires Valid() && req in sent
      modifies server`store, server`log, server`dbFaults, server`putAttempts, server`bytesUploaded, server`s3Faults
      ensures Valid() && World() == P.Step(old(World()), P.Stray(req, bound, env)) && old(server.log) <= server.log
      ensures var log, log' := old(LogOf(server.store.entries[id])), LogOf(server.store.entries[id]);
              log' == if bound then Append(log, req, env).0 else log
      ensures NoFewerFaults(old(server.dbFaults), old(server.s3Faults), server)
    {
      hide Inv, Legal, Replay, OnlyArtifact, P.Handle;
      P.StepKeepsInv(World(), P.Stray(req, bound, env));
      var _ := Deliver(req, bound, env);
    }

    /** Any number of them; what was never sent cannot turn up. */
    method StrayDeliveries(strays: seq<Stray>)
      requires Valid()
      modifies server`store, server`log, server`dbFaults, server`putAttempts, server`bytesUploaded, server`s3Faults
      ensures Valid() && old(server.log) <= server.log
      ensures World() == P.Run(old(World()), StrayEvents(strays, sent))
      ensures NoFewerFaults(old(server.dbFaults), old(server.s3Faults), server)
    {
      hide Inv, Legal, Replay, P.Inv, P.Step, P.Run, Append, StrayEvents;
      NoStrays(World(), sent);
      assert strays[..0] == [] && strays[..|strays|] == strays;
      for k := 0 to |strays|
        invariant Valid() && old(server.log) <= server.log
        invariant World() == P.Run(old(World()), StrayEvents(strays[..k], sent))
        invariant NoFewerFaults(old(server.dbFaults), old(server.s3Faults), server)
      {
        StrayEventsSnoc(old(World()), strays, sent, k);
        if strays[k].req in sent {
          StrayDelivery(strays[k].req, strays[k].bound, strays[k].env);
        }
      }
    }

    static lemma NoStrays(w: P.World, sent: set<AppendReq>)
      ensures P.Run(w, StrayEvents([], sent)) == w
    {
    }

    /** The world once the client has acted on a verdict about the chunk in hand. */
    ghost function Judged(verdict: P.Verdict, logChunk: Bytes): P.World
      requires id in server.store.entries && bytestream != []
      reads this, server
    {
      match verdict
      case Accepted =>
        World().(client := P.Client(offset + |logChunk|, bytestream[1..], failed), acked := acked + logChunk)
      case Retriable => World()
      case Terminal => World().(client := P.Client(offset, bytestream, true))
    }

    /** One request for the chunk in hand, and what the client makes of the outcome. */
    method PostChunk(logChunk: Bytes, net: P.Net) returns (verdict: P.Verdict)
      requires Valid() && !failed && bytestream != [] && bytestream[0] == logChunk && net.reply != P.Replaced(OK)
      modifies this`sent, server`store, server`log, server`dbFaults, server`putAttempts, server`bytesUploaded, server`s3Faults
      ensures server.Valid() && id in server.store.entries && old(server.log) <= server.log
      ensures Judged(verdict, logChunk) == P.Step(old(World()), P.Attempt(net)) && P.Inv(Judged(verdict, logChunk))
      ensures verdict.Accepted? <==> P.Carries(old(World()), net)
      ensures var req := AppendReq(offset, |logChunk|, [], logChunk);
              && sent == old(sent) + {req}
              && Reached(old(LogOf(server.store.entries[id])), req, net, LogOf(server.store.entries[id]))
      ensures NoFewerFaults(old(server.dbFaults), old(server.s3Faults), server)
    {
      hide Inv, Legal, Replay, OnlyArtifact, P.Handle, P.Settled, P.Ahead, P.Torn, P.WireOk, P.Carries;
      P.StepKeepsInv(World(), P.Attempt(net));
      P.AdvancesExactly(World(), net);
      var req := AppendReq(offset, |logChunk|, [], logChunk);
      sent := sent + {req};
      var status := SERVER_ERROR;
      ghost var ignored := P.Handle(LogOf(server.store.entries[id]), req, net.bound, net.env).1;
      if net.delivered {
        status := Deliver(req, net.bound, net.env);
      }
      verdict := P.Judge(net, status);
      assert verdict == P.Judge(net, ignored);
    }

    /** The post, and what it changes for the client. */
    method TryChunk(logChunk: Bytes, net: P.Net) returns (verdict: P.Verdict)
      requires Valid() && !failed && bytestream != [] && bytestream[0] == logChunk && net.reply != P.Replaced(OK)
      modifies this`offset, this`bytestream, this`failed, this`sent, this`acked
      modifies server`store, server`log, server`dbFaults, server`putAttempts, server`bytesUploaded, server`s3Faults
      ensures Valid() && World() == P.Step(old(World()), P.Attempt(net)) && old(server.log) <= server.log
      ensures verdict.Accepted? <==> P.Carries(old(World()), net)
      ensures verdict.Terminal? <==> failed
      ensures bytestream == if verdict.Accepted? then old(bytestream)[1..] else old(bytestream)
      ensures NoFewerFaults(old(server.dbFaults), old(server.s3Faults), server)
    {
      hide Inv, Legal, Replay, P.Inv, P.Step, P.Carries, LogOf, Reached;
      verdict := PostChunk(logChunk, net);
      match verdict
      case Retriable =>
      case Terminal =>
        failed := true;
      case Accepted =>
        offset := offset + |logChunk|;
        bytestream := bytestream[1..];
        acked := acked + logChunk;
    }

    /**
      The pushing loop. `script` is what happens to its attempts, one by one; when it runs out the
      client's context is cancelled, or the loop has simply not got any further yet.
     */
    method PushLogChunks(script: seq<P.Net>) returns (result: PushResult, used: nat)
      requires Valid() && !failed && Plausible(script)
      modifies this`offset, this`bytestream, this`failed, this`sent, this`acked
      modifies server`store, server`log, server`dbFaults, server`putAttempts, server`bytesUploaded, server`s3Faults
      ensures Valid() && used <= |script| && old(server.log) <= server.log
      ensures World() == P.Run(old(World()), Attempts(script[..used]))
      ensures NoFewerFaults(old(server.dbFaults), old(server.s3Faults), server)
      ensures result == Complete ==> !failed && bytestream == []
      ensures result == Fatal <==> failed
      ensures result == Cancelled ==> used == |script| && bytestream != []
    {
      hide Inv, Legal, Replay, P.Inv, P.Step, P.Run, P.Carries, Attempts, LogOf, Reached;
      used := 0;
      assert script[..0] == [];
      NoAttempts(World());
      while bytestream != []
        invariant Valid() && !failed && used <= |script| && old(server.log) <= server.log
        invariant NoFewerFaults(old(server.dbFaults), old(server.s3Faults), server)
        invariant World() == P.Run(old(World()), Attempts(script[..used]))
        decreases |script| - used, |bytestream|
      {
        var logChunk := bytestream[0];
        while true
          invariant Valid() && !failed && used <= |script| && old(server.log) <= server.log
          invariant bytestream != [] && bytestream[0] == logChunk
          invariant NoFewerFaults(old(server.dbFaults), old(server.s3Faults), server)
          invariant World() == P.Run(old(World()), Attempts(script[..used]))
          decreases |script| - used
        {
          if used == |script| {
            return Cancelled, used;
          }
          var net := script[used];
          OneMoreAttempt(old(World()), script, used);
          var verdict := TryChunk(logChunk, net);
          used := used + 1;
          if verdict == P.Retriable {
            continue;
          } else if verdict == P.Terminal {
            return Fatal, used;
          }
          break;
        }
      }
      return Complete, used;
    }

    static lemma OneMoreAttempt(w: P.World, script: seq<P.Net>, used: nat)
      requires used < |script|
      ensures P.Run(w, Attempts(script[..used + 1])) == P.Step(P.Run(w, Attempts(script[..used])), P.Attempt(script[used]))
    {
      assert script[..used + 1] == script[..used] + [script[used]];
      AttemptsSnoc(w, script[..used], script[used]);
    }

    static lemma NoAttempts(w: P.World)
      ensures P.Run(w, Attempts([])) == w
    {
    }

    /** The stored rows hold everything appended, exactly once and in order. */
    ghost predicate Delivered()
      reads this, server
    {
      && id in server.store.entries
      && var e := server.store.entries[id];
         && Tiles(e.chunks, 0, e.row.size) && Content(e.chunks) == appended && e.row.size == |appended|
    }

    /**
      Flush closes the channel, and opens a new one only when it returns nil; by then everything
      appended so far is delivered. Its select may see the context done (`ctxDone`) even though the
      queue is empty.
     */
    method Flush(script: seq<P.Net>, ctxDone: bool) returns (err: bool, ghost used: nat)
      requires Valid() && !closed && Plausible(script)
      modifies this`offset, this`bytestream, this`failed, this`sent, this`acked, this`closed
      modifies server`store, server`log, server`dbFaults, server`putAttempts, server`bytesUploaded, server`s3Faults
      ensures Valid() && old(server.log) <= server.log && used <= |script|
      ensures World() == P.Run(old(World()), Attempts(script[..used]))
      ensures err <==> ctxDone || failed || bytestream != []
      ensures closed <==> err
      ensures old(P.InStep(World())) && Harmless(script) ==> P.InStep(World())
      ensures old(P.InStep(World())) && Suffices(script, |old(bytestream)|) ==> (err <==> ctxDone)
      ensures NoFewerFaults(old(server.dbFaults), old(server.s3Faults), server)
      ensures !err ==> Delivered()
      ensures !failed && bytestream == [] ==> Delivered()
    {
      hide Inv, Legal, Replay, P.Inv, P.Run, P.CountClean, Attempts, P.Healthy;
      used := 0;
      ghost var w := World();
      NoAttempts(w);
      assert script[..0] == [];
      if !failed {
        var _, attempts := PushLogChunks(script);
        used := attempts;
      }
      if P.InStep(w) && Harmless(script) {
        ScriptDrains(w, script[..used]);
        assert script[..|script|] == script;
      }
      if !failed && bytestream == [] {
        DrainedIsDelivered();
      }
      err := ctxDone || failed || bytestream != [];
      closed := err;
    }

    lemma DrainedIsDelivered()
      requires Valid() && bytestream == []
      ensures Delivered()
    {
      hide Inv, Legal, Replay, P.Inv;
      P.InvMeansPrefix(World());
      TilesIffFull(server.store.entries[id].chunks, 0, server.store.entries[id].row.size);
    }

    /**
      Close: flush, then one request to close the artifact, with any old requests turning up in
      between. When it returns nil, either nothing was ever appended and the row says so, or the row
      is UPLOADED and its S3 object is exactly the concatenation of everything appended.
     */
    method Close(script: seq<P.Net>, ctxDone: bool, strays: seq<Stray>, bound: bool, delivered: bool, reply: P.Reply)
      returns (err: bool)
      requires Valid() && !closed && Plausible(script) && reply != P.Replaced(OK)
      modifies this`offset, this`bytestream, this`failed, this`sent, this`acked, this`closed
      modifies server`store, server`log, server`dbFaults, server`putAttempts, server`bytesUploaded, server`s3Faults
      ensures server.Valid() && old(server.log) <= server.log
      ensures !err ==> id in server.store.entries && Archived(server.store, id, appended)
      ensures old(P.InStep(World())) && Suffices(script, |old(bytestream)|) && err ==>
                || ctxDone || !delivered || !bound || !reply.Arrives?
                || server.dbFaults > old(server.dbFaults)
                || server.s3Faults >= old(server.s3Faults) + MAX_UPLOAD_ATTEMPTS
      ensures closed ==> err && Valid()
    {
      hide Inv, Legal, Replay, P.Inv, P.Run, P.InStep, Suffices, Harmless, OnlyArtifact, S3Key;
      var flushFailed, _ := Flush(script, ctxDone);
      err := flushFailed;
      if err {
        return;
      }
      StrayDeliveries(strays);
      DrainedIsDelivered();
      var status := SERVER_ERROR;
      ClosingFacts();
      if delivered && bound {
        var failedToClose := CloseArtifact(server, server.store.entries[id].row);
        status := if failedToClose then BAD_REQUEST else OK;
      }
      var verdict := P.Judge(P.Net(delivered, bound, Env(true, Ok, Ok), reply), status);
      err := verdict != P.Accepted;
    }

    /** Requests for other artifacts and buckets leave the client and its artifact as they are. */
    method ServeOther(req: B.Request, now: int) returns (status: int)
      requires Valid() && !B.Concerns(req, server.store.entries[id].row)
      modifies server
      ensures Valid() && World() == old(World()) && old(server.log) <= server.log
      ensures B.Answered(old(server.store), req, now, status, server.store,
                         Faulted(old(server.dbFaults), old(server.s3Faults), server))
    {
      hide Inv, Legal, Replay, P.Inv, B.KeepsFrozen, B.Concerns;
      status := B.Serve(server, req, now);
    }

    lemma ClosingFacts()
      requires Valid() && Delivered()
      ensures var e := server.store.entries[id];
              e.row.id == id && e.row.state == APPENDING && e.content == appended && e.Whole()
    {
      hide Tiles, Content, Spaced, Unique, ObjectsInv, Legal, Replay;
      assert EntryInv(server.store.entries[id]);
      assert World().log.state == APPENDING;
      ChunkedByState(server.store, id);
    }
  }

  /** Closed without data if there was none, and otherwise on S3 in its entirety. */
  predicate Archived(s: Store, id: nat, appended: Bytes)
    requires id in s.entries
  {
    var row := s.entries[id].row;
    if appended == [] then row.state == CLOSED_WITHOUT_DATA
    else row.state == UPLOADED && row.s3url in s.objects && s.objects[row.s3url] == appended
  }
}
