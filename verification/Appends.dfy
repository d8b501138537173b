/**
  Appending one chunk to a chunked artifact: what the server answers and what it leaves behind, for
  every outcome of the database calls it makes.
 */
module Appends {
  import opened Prelude
  import opened Model
  import opened LogChunks

  /**
    What a database write did. A write reported as failed may still have taken effect, when the
    reply of the database is what was lost.
   */
  datatype Fate = Ok | Failed | FailedLate {
    predicate Reported() { Ok? }
    predicate Took() { !Failed? }
  }

  /** JSON body of an append. `content` is the deprecated text form of `bytes`. */
  datatype AppendReq = AppendReq(byteOffset: int, size: int, content: Bytes, bytes: Bytes)

  /** The part of the tables an append reads and writes: one artifact row and its chunk rows. */
  datatype Log = Log(state: ArtifactState, size: int, chunks: seq<Chunk>)

  /** Outcomes of the three calls an append can make: last-chunk lookup, size update, chunk insert. */
  datatype Env = Env(lookup: bool, update: Fate, insert: Fate)

  const OK := 200
  const BAD_REQUEST := 400
  const SERVER_ERROR := 500

  /** The bytes a request carries, or None when the server rejects its size or its body. */
  function Payload(req: AppendReq): Option<Bytes> {
    if req.size <= 0 then None
    else if |req.bytes| != 0 then
      if |req.bytes| != req.size then None else Some(req.bytes)
    else if |req.content| == 0 || |req.content| != req.size then None
    else Some(req.content)
  }

  /** As many bytes as the size says and at least one, in either form; the text form only counts when the other is absent. */
  lemma PayloadMeaning(req: AppendReq, data: Bytes)
    ensures Payload(req) == Some(data) <==>
            && |data| == req.size > 0
            && (data == req.bytes || (req.bytes == [] && data == req.content))
  {
  }

  /** The row the request would insert. */
  function ChunkOf(req: AppendReq): Chunk
    requires Payload(req).Some?
  {
    Chunk(req.byteOffset, req.size, Payload(req).value)
  }

  /** The request repeats the last chunk the table holds, and ends at the current size. */
  predicate Repeats(log: Log, req: AppendReq, lookup: bool)
    requires Payload(req).Some?
  {
    && log.size != 0
    && log.size == req.byteOffset + req.size
    && lookup
    && LastChunk(log.chunks) == Some(ChunkOf(req))
  }

  function Append(log: Log, req: AppendReq, env: Env): (Log, int) {
    if log.state != APPENDING || Payload(req).None? then
      (log, BAD_REQUEST)
    else if log.size != req.byteOffset then
      (log, if Repeats(log, req, env.lookup) then OK else BAD_REQUEST)
    else
      var grown := if env.update.Took() then log.(size := req.byteOffset + req.size) else log;
      if !env.update.Reported() then
        (grown, SERVER_ERROR)
      else
        (if env.insert.Took() then grown.(chunks := grown.chunks + [ChunkOf(req)]) else grown,
         if env.insert.Reported() then OK else BAD_REQUEST)
  }

  // ----- one request -----

  /** The request is new data at the end of an open artifact. */
  predicate Extends(log: Log, req: AppendReq) {
    log.state == APPENDING && Payload(req).Some? && req.byteOffset == log.size
  }

  /** The size moved but the chunk never arrived. */
  predicate Tears(log: Log, req: AppendReq, env: Env) {
    Extends(log, req) && env.update.Took() && !(env.update.Reported() && env.insert.Took())
  }

  predicate Lands(log: Log, req: AppendReq, env: Env) {
    Extends(log, req) && env.update.Reported() && env.insert.Took()
  }

  /** Safety of one append, against any client and any database outcome. */
  lemma AppendOnce(log: Log, req: AppendReq, env: Env)
    requires Spaced(log.chunks, 0, log.size)
    ensures var (log', status) := Append(log, req, env);
            && log'.state == log.state
            && Spaced(log'.chunks, 0, log'.size)
            && log.chunks <= log'.chunks && log.size <= log'.size
            && Content(log'.chunks) ==
               Content(log.chunks) + (if Lands(log, req, env) then Payload(req).value else [])
            && (Tiles(log'.chunks, 0, log'.size) <==> Tiles(log.chunks, 0, log.size) && !Tears(log, req, env))
            && (status == OK ==> log'.chunks != [] && log'.chunks[|log'.chunks| - 1] == ChunkOf(req))
  {
    hide Content, Tiles, Spaced;
    var (log', status) := Append(log, req, env);
    SpacedBounds(log.chunks, 0, log.size);
    if Lands(log, req, env) {
      SpacedSnoc(log.chunks, 0, log.size, ChunkOf(req), log'.size);
    } else {
      SpacedWiden(log.chunks, 0, log.size, log'.size);
    }
    TilesIffFull(log.chunks, 0, log.size);
    TilesIffFull(log'.chunks, 0, log'.size);
    SpacedIsOrdered(log.chunks, 0, log.size);
  }

  /**
    When a request is answered 200: it extends the log and both writes succeed, or it is the last
    row over again, that row ends at Size, and the lookup works.
   */
  lemma AnsweredOkExactly(log: Log, req: AppendReq, env: Env)
    requires Spaced(log.chunks, 0, log.size)
    ensures var (log', status) := Append(log, req, env);
            && (status == OK <==>
                  && log.state == APPENDING && Payload(req).Some?
                  && (|| (req.byteOffset == log.size && env.update.Ok? && env.insert.Ok?)
                      || (&& env.lookup && log.chunks != []
                          && log.chunks[|log.chunks| - 1] == Chunk(req.byteOffset, req.size, Payload(req).value)
                          && log.size == req.byteOffset + req.size)))
            && (status == SERVER_ERROR <==> Extends(log, req) && !env.update.Ok?)
            && (status != OK ==> status in {BAD_REQUEST, SERVER_ERROR})
            && (!Extends(log, req) ==> log' == log)
  {
    hide Spaced, OrderByOffset;
    SpacedIsOrdered(log.chunks, 0, log.size);
    SpacedBounds(log.chunks, 0, log.size);
  }

  /** The deprecated text form of a request fares exactly as its bytes form does. */
  lemma TextIsBytes(log: Log, offset: int, size: int, data: Bytes, env: Env)
    ensures var text, bytes := AppendReq(offset, size, data, []), AppendReq(offset, size, [], data);
            && Payload(text) == Payload(bytes)
            && Append(log, text, env) == Append(log, bytes, env)
            && (Lands(log, text, env) <==> Lands(log, bytes, env))
            && (Tears(log, text, env) <==> Tears(log, bytes, env))
  {
    hide LastChunk;
  }

  // ----- any sequence of requests -----

  datatype Call = Call(req: AppendReq, env: Env)

  function AppendAll(log: Log, calls: seq<Call>): Log
    decreases |calls|
  {
    if calls == [] then log
    else AppendAll(Append(log, calls[0].req, calls[0].env).0, calls[1..])
  }

  lemma {:induction false} AppendAllSnoc(log: Log, calls: seq<Call>, call: Call)
    ensures AppendAll(log, calls + [call]) == Append(AppendAll(log, calls), call.req, call.env).0
    decreases |calls|
  {
    hide Append;
    if calls == [] {
      assert calls + [call] == [call] && [call][1..] == [];
    } else {
      assert (calls + [call])[0] == calls[0] && (calls + [call])[1..] == calls[1..] + [call];
      AppendAllSnoc(Append(log, calls[0].req, calls[0].env).0, calls[1..], call);
    }
  }

  /** The bytes of the requests that landed, in order. */
  function Landed(log: Log, calls: seq<Call>): Bytes
    decreases |calls|
  {
    if calls == [] then []
    else
      var c := calls[0];
      (if Lands(log, c.req, c.env) then Payload(c.req).value else [])
      + Landed(Append(log, c.req, c.env).0, calls[1..])
  }

  predicate EverTears(log: Log, calls: seq<Call>)
    decreases |calls|
  {
    calls != [] && (Tears(log, calls[0].req, calls[0].env)
                    || EverTears(Append(log, calls[0].req, calls[0].env).0, calls[1..]))
  }

  /**
    Whatever requests arrive, with whatever offsets, sizes and contents, and whatever the database
    does: the rows stay non-empty, disjoint, ascending and inside [0, Size); the content is what
    it was plus the requests that landed, each once; and the rows tile [0, Size) exactly when they
    did before and no request left its size update without its chunk.
   */
  lemma {:induction false} AppendAnything(log: Log, calls: seq<Call>)
    requires Spaced(log.chunks, 0, log.size)
    ensures var log' := AppendAll(log, calls);
            && Spaced(log'.chunks, 0, log'.size)
            && log.chunks <= log'.chunks && log.size <= log'.size
            && Content(log'.chunks) == Content(log.chunks) + Landed(log, calls)
            && (Tiles(log'.chunks, 0, log'.size) <==>
                Tiles(log.chunks, 0, log.size) && !EverTears(log, calls))
    decreases |calls|
  {
    if calls != [] {
      AppendOnce(log, calls[0].req, calls[0].env);
      AppendAnything(Append(log, calls[0].req, calls[0].env).0, calls[1..]);
    }
  }

  function Flatten(chunks: seq<Bytes>): Bytes {
    if chunks == [] then [] else chunks[0] + Flatten(chunks[1..])
  }

  /** The chunks one after the other, every call answered. */
  function InOrder(offset: int, chunks: seq<Bytes>): seq<Call>
    decreases |chunks|
  {
    if chunks == [] then []
    else
      [Call(AppendReq(offset, |chunks[0]|, [], chunks[0]), Env(true, Ok, Ok))]
      + InOrder(offset + |chunks[0]|, chunks[1..])
  }

  /** Non-empty chunks appended in order all land, and are the content from the old end on. */
  lemma {:induction false} InOrderAllLand(log: Log, chunks: seq<Bytes>)
    requires Spaced(log.chunks, 0, log.size) && log.state == APPENDING
    requires forall i :: 0 <= i < |chunks| ==> chunks[i] != []
    ensures var calls := InOrder(log.size, chunks);
            var log' := AppendAll(log, calls);
            && Landed(log, calls) == Flatten(chunks) && !EverTears(log, calls)
            && Content(log'.chunks) == Content(log.chunks) + Flatten(chunks)
            && log'.size == log.size + |Flatten(chunks)| && log'.state == APPENDING
    decreases |chunks|
  {
    hide Spaced, Content, LastChunk;
    if chunks != [] {
      var calls := InOrder(log.size, chunks);
      var log1 := Append(log, calls[0].req, calls[0].env).0;
      assert log1.size == log.size + |chunks[0]|;
      assert calls[1..] == InOrder(log1.size, chunks[1..]);
      AppendOnce(log, calls[0].req, calls[0].env);
      InOrderAllLand(log1, chunks[1..]);
    }
  }
}
