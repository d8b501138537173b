/**
  The request handlers that work on one artifact. Each is given the row it was bound to, which is
  the row the database holds: requests on one artifact are served one at a time.
 */
module Handlers {
  import opened Prelude
  import opened Model
  import opened LogChunks
  import opened Appends
  import opened Store
  import opened Backend
  import opened LogReader
  import opened Upload

  /** The row was read from the database and nothing has touched it since. */
  predicate Bound(s: Store, a: Artifact) {
    a.id in s.entries && s.entries[a.id].row == a
  }

  // ----- frames -----

  lemma OnlyArtifactRefl(s: Store, id: nat)
    requires id in s.entries
    ensures OnlyArtifact(s, s, id)
  {
  }

  lemma OnlyArtifactTrans(s1: Store, s2: Store, s3: Store, id: nat)
    requires OnlyArtifact(s1, s2, id) && OnlyArtifact(s2, s3, id)
    ensures OnlyArtifact(s1, s3, id)
  {
    hide S3Key, Terminal, Rank;
    LaterIsTransitive(s1.entries[id], s2.entries[id], s3.entries[id]);
  }

  lemma EntryChangeIsLocal(s: Store, id: nat, ch: EntryChange)
    requires Inv(s) && Enabled(s, OnEntry(id, ch))
    ensures Apply(s, OnEntry(id, ch)).entries == s.entries[id := ApplyEntry(s.entries[id], ch)]
    ensures Apply(s, OnEntry(id, ch)).objects == s.objects
    ensures OnlyArtifact(s, Apply(s, OnEntry(id, ch)), id)
  {
    hide EntryInv, EnabledEntry, ApplyEntry, S3Key, Unique, ObjectsInv;
    EntryKept(s.entries[id], ch, s.objects);
  }

  lemma ObjectChangeIsLocal(s: Store, s': Store, id: nat)
    requires id in s.entries && OnlyObject(s, s', s.entries[id].row.DefaultS3URL())
    ensures OnlyArtifact(s, s', id)
  {
  }

  /** Write back an artifact row. */
  method UpdateArtifact(b: Backend, a: Artifact, fate: Fate) returns (failed: bool)
    requires b.Valid() && a.id in b.store.entries && Edge(b.store.entries[a.id], a, b.store.objects)
    modifies b`store, b`log, b`dbFaults
    ensures b.Valid() && old(b.log) <= b.log
    ensures failed <==> !fate.Ok?
    ensures b.dbFaults == old(b.dbFaults) + if failed then 1 else 0
    ensures a.id in b.store.entries
    ensures OnlyArtifact(old(b.store), b.store, a.id) && b.store.objects == old(b.store.objects)
    ensures b.store.entries[a.id] ==
            if fate.Took() then old(b.store).entries[a.id].(row := a) else old(b.store).entries[a.id]
  {
    hide Inv, Legal, Replay, OnlyArtifact, Edge;
    OnlyArtifactRefl(b.store, a.id);
    assert Enabled(b.store, OnEntry(a.id, SetArtifact(a)));
    EntryChangeIsLocal(b.store, a.id, SetArtifact(a));
    failed := b.Commit(OnEntry(a.id, SetArtifact(a)), fate);
  }

  // ----- appending -----

  function LogOf(e: Entry): Log {
    Log(e.row.state, e.row.size, e.chunks)
  }

  /** An append as it shows in the tables. */
  function AppendEntry(e: Entry, req: AppendReq, env: Env): Entry {
    var log' := Append(LogOf(e), req, env).0;
    e.(row := e.row.(size := log'.size), chunks := log'.chunks,
       content := e.content + if Lands(LogOf(e), req, env) then Payload(req).value else [])
  }

  lemma LogOfAppendEntry(e: Entry, req: AppendReq, env: Env)
    ensures LogOf(AppendEntry(e, req, env)) == Append(LogOf(e), req, env).0
  {
    hide LastChunk;
  }

  method AppendLogChunk(b: Backend, artifact: Artifact, req: AppendReq, env: Env) returns (status: int)
    requires b.Valid() && Bound(b.store, artifact)
    modifies b`store, b`log, b`dbFaults
    ensures b.Valid() && old(b.log) <= b.log && artifact.id in b.store.entries
    ensures OnlyArtifact(old(b.store), b.store, artifact.id) && b.store.objects == old(b.store.objects)
    ensures b.store.entries[artifact.id] == AppendEntry(old(b.store).entries[artifact.id], req, env)
    ensures status == Append(LogOf(old(b.store).entries[artifact.id]), req, env).1
    ensures old(b.dbFaults) <= b.dbFaults
  {
    hide Inv, Legal, Replay, OnlyArtifact, Edge, LastChunk;
    OnlyArtifactRefl(b.store, artifact.id);
    ghost var s0, e := b.store, b.store.entries[artifact.id];
    if artifact.state != APPENDING {
      return BAD_REQUEST;
    }
    if req.size <= 0 {
      return BAD_REQUEST;
    }
    var contentBytes: Bytes;
    if |req.bytes| != 0 {
      if |req.bytes| != req.size {
        return BAD_REQUEST;
      }
      contentBytes := req.bytes;
    } else {
      if |req.content| == 0 {
        return BAD_REQUEST;
      }
      if |req.content| != req.size {
        return BAD_REQUEST;
      }
      contentBytes := req.content;
    }
    var nextByteOffset := artifact.size;
    if nextByteOffset != req.byteOffset {
      if nextByteOffset != 0 && nextByteOffset == req.byteOffset + req.size {
        if env.lookup {
          var prev := LastChunk(b.store.entries[artifact.id].chunks);
          if && prev.Some? && prev.value.offset == req.byteOffset && prev.value.size == req.size
             && prev.value.bytes == contentBytes {
            return OK;
          }
        }
      }
      return BAD_REQUEST;
    }
    var grown := artifact.(size := req.byteOffset + req.size);
    Edges(e, s0.objects);
    var failed := UpdateArtifact(b, grown, env.update);
    if failed {
      return SERVER_ERROR;
    }
    var chunk := Chunk(req.byteOffset, req.size, contentBytes);
    AddChunkEnabled(s0, artifact.id, b.store, chunk);
    EntryChangeIsLocal(b.store, artifact.id, AddChunk(chunk));
    ghost var s1 := b.store;
    failed := b.Commit(OnEntry(artifact.id, AddChunk(chunk)), env.insert);
    if env.insert.Took() {
      OnlyArtifactTrans(s0, s1, b.store, artifact.id);
    }
    status := if failed then BAD_REQUEST else OK;
  }


  lemma AddChunkEnabled(s: Store, id: nat, s1: Store, c: Chunk)
    requires Inv(s) && id in s.entries && s.entries[id].row.state == APPENDING
    requires c.offset == s.entries[id].row.size && c.size == |c.bytes| > 0
    requires id in s1.entries && s1.entries[id] == s.entries[id].(row := s.entries[id].row.(size := c.End()))
    ensures Enabled(s1, OnEntry(id, AddChunk(c)))
  {
    hide Spaced, Content, Unique, ObjectsInv;
    assert EntryInv(s.entries[id]);
  }

  // ----- merging and closing -----

  /** All the bytes of a chunked artifact that is not uploaded are in its rows. */
  lemma WholeMeansTiled(s: Store, id: nat)
    requires Inv(s) && id in s.entries && s.entries[id].Whole()
    requires s.entries[id].origin.Chunked? && s.entries[id].row.state != UPLOADED
    ensures Tiles(s.entries[id].chunks, 0, s.entries[id].row.size)
    ensures Content(s.entries[id].chunks) == s.entries[id].content
    ensures Snapshot(RowsOf(s, id), s.entries[id].content)
  {
    hide Spaced, Content, Tiles, Snapshot, Unique, ObjectsInv;
    var e := s.entries[id];
    assert EntryInv(e);
    TilesIffFull(e.chunks, 0, e.row.size);
    SnapshotOfTiled(e.chunks, e.row.size);
  }

  lemma ChunkedByState(s: Store, id: nat)
    requires Inv(s) && id in s.entries
    ensures s.entries[id].row.id == id
    ensures s.entries[id].row.state in {APPENDING, APPEND_COMPLETE} ==> s.entries[id].origin.Chunked?
    ensures s.entries[id].row.state == WAITING_FOR_UPLOAD ==> s.entries[id].origin.Streamed?
    ensures s.entries[id].origin.Chunked? ==> s.entries[id].row.size >= 0
    ensures s.entries[id].row.state != UPLOADED ==> s.entries[id].row.s3url == ""
  {
    hide Spaced, Content, Unique, ObjectsInv, S3Key;
    assert EntryInv(s.entries[id]);
    if s.entries[id].origin.Chunked? {
      SpacedBounds(s.entries[id].chunks, 0, s.entries[id].row.size);
    }
  }

  ghost predicate NoFewerFaults(dbFaults: nat, s3Faults: nat, b: Backend)
    reads b
  {
    dbFaults <= b.dbFaults && s3Faults <= b.s3Faults
  }

  /** Calls failed since, enough of them to make a request fail: one on the database, or all attempts of an upload. */
  ghost predicate Faulted(dbFaults: nat, s3Faults: nat, b: Backend)
    reads b
  {
    b.dbFaults > dbFaults || b.s3Faults >= s3Faults + MAX_UPLOAD_ATTEMPTS
  }

  method MergeLogChunks(b: Backend, artifact: Artifact) returns (failed: bool)
    requires b.Valid() && Bound(b.store, artifact)
    modifies b`store, b`log, b`dbFaults, b`putAttempts, b`bytesUploaded, b`s3Faults
    ensures b.Valid() && old(b.log) <= b.log && artifact.id in b.store.entries
    ensures OnlyArtifact(old(b.store), b.store, artifact.id)
    ensures artifact.state != APPEND_COMPLETE ==> failed && b.store == old(b.store)
    ensures !failed ==> MergeDone(old(b.store).entries[artifact.id], b.store.entries[artifact.id], b.store.objects)
    ensures !failed && artifact.size != 0 ==>
              && b.log != [] && b.log[|b.log| - 1] in {Nothing, OnEntry(artifact.id, DropChunks)}
              && b.store.entries[artifact.id].chunks ==
                 if b.log[|b.log| - 1] == Nothing then old(b.store).entries[artifact.id].chunks else []
    ensures NoFewerFaults(old(b.dbFaults), old(b.s3Faults), b)
    ensures failed && artifact.state == APPEND_COMPLETE && old(b.store).entries[artifact.id].Whole() ==>
              || b.dbFaults > old(b.dbFaults)
              || (b.s3Faults >= old(b.s3Faults) + MAX_UPLOAD_ATTEMPTS
                  && b.store.entries[artifact.id].row == artifact.(state := UPLOADING))
    ensures b.bytesUploaded - old(b.bytesUploaded) in {0, artifact.size}
    ensures !failed ==> b.bytesUploaded == old(b.bytesUploaded) + artifact.size
  {
    hide Inv, Legal, Replay, OnlyArtifact, Snapshot, S3Key, Edge, Enabled, Apply, Content, Spaced, Tiles;
    ghost var s0 := b.store;
    OnlyArtifactRefl(s0, artifact.id);
    ChunkedByState(s0, artifact.id);
    Edges(s0.entries[artifact.id], s0.objects);
    if artifact.state != APPEND_COMPLETE {
      return true;
    }
    var fate: Fate := *;
    if artifact.size == 0 {
      failed := UpdateArtifact(b, artifact.(state := CLOSED_WITHOUT_DATA, s3url := ""), fate);
      return;
    }
    var row := artifact.(state := UPLOADING);
    failed := UpdateArtifact(b, row, fate);
    if failed {
      return;
    }
    ghost var s1 := b.store;
    ghost var e1 := s1.entries[artifact.id];
    if e1.Whole() {
      WholeMeansTiled(s1, artifact.id);
    }
    var r := new LogChunkReader.WithReadahead(row, b, e1.content);
    failed := UploadArtifactToS3(b, artifact.id, row.size, FromLog(r));
    ghost var s2 := b.store;
    ObjectChangeIsLocal(s1, s2, artifact.id);
    OnlyArtifactTrans(s0, s1, s2, artifact.id);
    if failed {
      return;
    }
    fate := *;
    Edges(s2.entries[artifact.id], s2.objects);
    failed := UpdateArtifact(b, row.(state := UPLOADED, s3url := row.DefaultS3URL()), fate);
    ghost var s3 := b.store;
    OnlyArtifactTrans(s0, s2, s3, artifact.id);
    if failed {
      return;
    }
    fate := *;
    DeleteLogChunks(b, artifact.id, fate);
    OnlyArtifactTrans(s0, s3, b.store, artifact.id);
  }

  /** Delete the chunk rows of an uploaded artifact; a failure is only logged. */
  method DeleteLogChunks(b: Backend, id: nat, fate: Fate)
    requires b.Valid() && id in b.store.entries && b.store.entries[id].row.state == UPLOADED
    modifies b`store, b`log, b`dbFaults
    ensures b.Valid() && id in b.store.entries
    ensures OnlyArtifact(old(b.store), b.store, id) && b.store.objects == old(b.store.objects)
    ensures b.log == old(b.log) + [if fate.Took() then OnEntry(id, DropChunks) else Nothing]
    ensures old(b.dbFaults) <= b.dbFaults
    ensures b.store.entries[id] ==
            if fate.Took() then old(b.store).entries[id].(chunks := []) else old(b.store).entries[id]
  {
    hide Inv, Legal, Replay, OnlyArtifact, Enabled;
    OnlyArtifactRefl(b.store, id);
    DropEnabled(b.store, id);
    EntryChangeIsLocal(b.store, id, DropChunks);
    var _ := b.Commit(OnEntry(id, DropChunks), fate);
  }

  lemma DropEnabled(s: Store, id: nat)
    requires id in s.entries && s.entries[id].row.state == UPLOADED
    ensures Enabled(s, OnEntry(id, DropChunks))
  {
  }

  /** A merge that reports success closed an empty artifact, or put the whole content on S3. */
  predicate MergeDone(e: Entry, e': Entry, objects: map<string, Bytes>) {
    && e'.content == e.content
    && if e.row.size == 0 then e'.row == e.row.(state := CLOSED_WITHOUT_DATA)
       else
         && e'.row == e.row.(state := UPLOADED, s3url := e.row.DefaultS3URL())
         && (e.Whole() ==> e'.Stored(objects))
  }

  /** What closing does to an artifact, when it reports success. */
  predicate CloseDone(e: Entry, e': Entry, objects: map<string, Bytes>) {
    match e.row.state
    case UPLOADED => e' == e
    case APPEND_COMPLETE => e' == e
    case APPENDING => MergeDone(e, e', objects)
    case WAITING_FOR_UPLOAD => e' == e.(row := e.row.(state := CLOSED_WITHOUT_DATA))
    case _ => false
  }

  /** Nothing but a failing call can keep the artifact from being closed. */
  predicate Closable(e: Entry) {
    e.row.state in {UPLOADED, APPEND_COMPLETE, WAITING_FOR_UPLOAD} || (e.row.state == APPENDING && e.Whole())
  }

  /** The artifact has come to its end: on S3 in its entirety, or closed without data. */
  predicate Finished(e: Entry, objects: map<string, Bytes>) {
    e.row.state == CLOSED_WITHOUT_DATA || (e.row.state == UPLOADED && e.Stored(objects))
  }

  /** What `CloseDone` comes to for a whole chunked artifact. */
  lemma CloseFinishesExactly(s: Store, id: nat, e': Entry, objects: map<string, Bytes>)
    requires Inv(s) && SlashFree(s) && id in s.entries && s.entries[id].origin.Chunked? && s.entries[id].Whole()
    requires s.entries[id].row.state == UPLOADED ==> objects == s.objects
    requires CloseDone(s.entries[id], e', objects)
    ensures Finished(e', objects) <==> s.entries[id].row.state != APPEND_COMPLETE
  {
    hide Spaced, Content, S3Key;
    var e := s.entries[id];
    assert EntryInv(e);
  }

  /**
    A close that reports success has finished a whole chunked artifact exactly when the row was not
    already APPEND_COMPLETE. An artifact whose merge never started stays in its rows
    (`Store.CloseCanGetStuck`), and closing it again reports success without uploading anything.
   */
  method CloseArtifact(b: Backend, artifact: Artifact) returns (failed: bool)
    requires b.Valid() && Bound(b.store, artifact)
    modifies b`store, b`log, b`dbFaults, b`putAttempts, b`bytesUploaded, b`s3Faults
    ensures b.Valid() && old(b.log) <= b.log && artifact.id in b.store.entries
    ensures OnlyArtifact(old(b.store), b.store, artifact.id)
    ensures artifact.state !in {APPENDING, WAITING_FOR_UPLOAD} ==>
              b.store == old(b.store) && (failed <==> artifact.state !in {UPLOADED, APPEND_COMPLETE})
    ensures !failed ==> CloseDone(old(b.store).entries[artifact.id], b.store.entries[artifact.id], b.store.objects)
    ensures NoFewerFaults(old(b.dbFaults), old(b.s3Faults), b)
    ensures failed && Closable(old(b.store).entries[artifact.id]) ==> Faulted(old(b.dbFaults), old(b.s3Faults), b)
    ensures !failed && SlashFree(old(b.store)) && old(b.store).entries[artifact.id].origin.Chunked?
            && old(b.store).entries[artifact.id].Whole() ==>
              (Finished(b.store.entries[artifact.id], b.store.objects) <==> artifact.state != APPEND_COMPLETE)
  {
    hide Inv, Legal, Replay, OnlyArtifact, Edge, S3Key, SlashFree, Finished;
    ghost var s0 := b.store;
    OnlyArtifactRefl(s0, artifact.id);
    Edges(s0.entries[artifact.id], s0.objects);
    var fate: Fate := *;
    match artifact.state {
      case UPLOADED =>
        failed := false;
      case APPEND_COMPLETE =>
        failed := false;
      case APPENDING =>
        var row := artifact.(state := APPEND_COMPLETE);
        failed := UpdateArtifact(b, row, fate);
        if !failed {
          ghost var s1 := b.store;
          failed := MergeLogChunks(b, row);
          OnlyArtifactTrans(s0, s1, b.store, artifact.id);
        }
      case WAITING_FOR_UPLOAD =>
        failed := UpdateArtifact(b, artifact.(state := CLOSED_WITHOUT_DATA), fate);
      case _ =>
        failed := true;
    }
    if !failed && SlashFree(s0) && s0.entries[artifact.id].origin.Chunked? && s0.entries[artifact.id].Whole() {
      CloseFinishesExactly(s0, artifact.id, b.store.entries[artifact.id], b.store.objects);
    }
  }

  // ----- streamed uploads -----

  /** A streamed upload that reports success: the promised number of bytes of the body is on S3. */
  predicate PutDone(e: Entry, e': Entry, objects: map<string, Bytes>, body: Bytes) {
    && e'.row == e.row.(state := UPLOADED, s3url := e.row.DefaultS3URL())
    && (0 <= e.row.size ==> e.row.size <= |body| && e'.content == body[..e.row.size] && e'.Stored(objects))
  }

  method PutArtifact(b: Backend, artifact: Artifact, contentLength: Option<int>, body: Bytes) returns (failed: bool)
    requires b.Valid() && Bound(b.store, artifact)
    modifies b`store, b`log, b`dbFaults, b`putAttempts, b`bytesUploaded, b`s3Faults
    ensures b.Valid() && old(b.log) <= b.log && artifact.id in b.store.entries
    ensures OnlyArtifact(old(b.store), b.store, artifact.id)
    ensures artifact.state != WAITING_FOR_UPLOAD || contentLength != Some(artifact.size) ==>
              failed && b.store == old(b.store)
    ensures !failed ==> PutDone(old(b.store).entries[artifact.id], b.store.entries[artifact.id], b.store.objects, body)
    ensures NoFewerFaults(old(b.dbFaults), old(b.s3Faults), b)
    ensures failed && artifact.state == WAITING_FOR_UPLOAD && contentLength == Some(artifact.size) ==>
              || b.dbFaults > old(b.dbFaults)
              || (b.store.entries[artifact.id].row == artifact.(state := ERROR)
                  && (0 <= artifact.size <= |body| ==> b.s3Faults >= old(b.s3Faults) + MAX_UPLOAD_ATTEMPTS))
    ensures |body| < artifact.size ==>
              failed && b.store.objects == old(b.store.objects) && b.putAttempts == old(b.putAttempts)
    ensures b.putAttempts <= old(b.putAttempts) + MAX_UPLOAD_ATTEMPTS
    ensures b.bytesUploaded - old(b.bytesUploaded) in {0, artifact.size}
    ensures !failed ==> b.bytesUploaded == old(b.bytesUploaded) + artifact.size
  {
    hide Inv, Legal, Replay, OnlyArtifact, Edge, S3Key;
    ghost var s0 := b.store;
    OnlyArtifactRefl(s0, artifact.id);
    ChunkedByState(s0, artifact.id);
    Edges(s0.entries[artifact.id], s0.objects);
    if artifact.state != WAITING_FOR_UPLOAD {
      return true;
    }
    if contentLength.None? {
      return true;
    }
    if contentLength.value != artifact.size {
      return true;
    }
    var fate: Fate := *;
    var row := artifact.(state := UPLOADING);
    failed := UpdateArtifact(b, row, fate);
    if failed {
      return;
    }
    ghost var s1 := b.store;
    Edges(s1.entries[artifact.id], s1.objects);
    // io.CopyN: a short body is an error, a negative size copies nothing
    if |body| < artifact.size {
      fate := *;
      var _ := UpdateArtifact(b, row.(state := ERROR), fate);
      OnlyArtifactTrans(s0, s1, b.store, artifact.id);
      return true;
    }
    var data := if artifact.size < 0 then [] else body[..artifact.size];
    if artifact.size >= 0 {
      EntryChangeIsLocal(s1, artifact.id, Receive(data));
      var _ := b.Commit(OnEntry(artifact.id, Receive(data)), Ok);
      OnlyArtifactTrans(s0, s1, b.store, artifact.id);
    }
    ghost var s2 := b.store;
    var r := new BytesReader(data);
    failed := UploadArtifactToS3(b, artifact.id, artifact.size, FromMemory(r));
    ghost var s3 := b.store;
    ObjectChangeIsLocal(s2, s3, artifact.id);
    OnlyArtifactTrans(s0, s2, s3, artifact.id);
    Edges(s3.entries[artifact.id], s3.objects);
    fate := *;
    if failed {
      var _ := UpdateArtifact(b, row.(state := ERROR), fate);
      OnlyArtifactTrans(s0, s3, b.store, artifact.id);
      return true;
    }
    failed := UpdateArtifact(b, row.(state := UPLOADED, s3url := row.DefaultS3URL()), fate);
    OnlyArtifactTrans(s0, s3, b.store, artifact.id);
  }

  // ----- the dispatcher -----

  /** A post to an artifact: headers, body, and the body read as a chunk if it is one. */
  datatype Post = Post(contentLength: Option<int>, body: Bytes, chunk: Option<AppendReq>, env: Env)

  method PostArtifact(b: Backend, artifact: Artifact, post: Post) returns (status: int)
    requires b.Valid() && Bound(b.store, artifact)
    modifies b`store, b`log, b`dbFaults, b`putAttempts, b`bytesUploaded, b`s3Faults
    ensures b.Valid() && old(b.log) <= b.log && artifact.id in b.store.entries
    ensures OnlyArtifact(old(b.store), b.store, artifact.id)
    ensures artifact.state !in {APPENDING, WAITING_FOR_UPLOAD} ==>
              && b.store == old(b.store)
              && status == if artifact.state in {UPLOADING, UPLOADED, APPEND_COMPLETE} then BAD_REQUEST else OK
    ensures artifact.state == WAITING_FOR_UPLOAD ==>
              if post.contentLength != Some(artifact.size) then status == BAD_REQUEST && b.store == old(b.store)
              else status in {OK, SERVER_ERROR}
    ensures NoFewerFaults(old(b.dbFaults), old(b.s3Faults), b)
    ensures artifact.state == WAITING_FOR_UPLOAD && status == SERVER_ERROR ==>
              || b.dbFaults > old(b.dbFaults)
              || (b.store.entries[artifact.id].row == artifact.(state := ERROR)
                  && (0 <= artifact.size <= |post.body| ==> b.s3Faults >= old(b.s3Faults) + MAX_UPLOAD_ATTEMPTS))
    ensures artifact.state == WAITING_FOR_UPLOAD && status == OK ==>
              PutDone(old(b.store).entries[artifact.id], b.store.entries[artifact.id], b.store.objects, post.body)
    ensures artifact.state == APPENDING ==>
              if post.chunk.None? then status == BAD_REQUEST && b.store == old(b.store)
              else
                var e := old(b.store).entries[artifact.id];
                && status == Append(LogOf(e), post.chunk.value, post.env).1
                && b.store.entries[artifact.id] == AppendEntry(e, post.chunk.value, post.env)
                && b.store.objects == old(b.store.objects)
  {
    hide Inv, Legal, Replay, OnlyArtifact, PutDone, AppendEntry, Append;
    OnlyArtifactRefl(b.store, artifact.id);
    match artifact.state
    case WAITING_FOR_UPLOAD =>
      if post.contentLength.None? {
        return BAD_REQUEST;
      }
      if post.contentLength.value != artifact.size {
        return BAD_REQUEST;
      }
      var failed := PutArtifact(b, artifact, post.contentLength, post.body);
      return if failed then SERVER_ERROR else OK;
    case UPLOADING =>
      return BAD_REQUEST;
    case UPLOADED =>
      return BAD_REQUEST;
    case APPENDING =>
      if post.chunk.None? {
        return BAD_REQUEST;
      }
      status := AppendLogChunk(b, artifact, post.chunk.value, post.env);
    case APPEND_COMPLETE =>
      return BAD_REQUEST;
    case _ =>
      return OK;  // no case of the dispatcher applies, and the empty reply reads as success
  }
}
