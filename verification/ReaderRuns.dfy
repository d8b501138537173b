/**
  Whole runs of a log reader: any sequence of reads and seeks, with other clients' appends arriving
  in between, gives what the byte array of the reader's own row gives.
 */
module ReaderRuns {
  import opened Prelude
  import opened Model
  import opened LogChunks
  import opened Appends
  import opened Store
  import opened Backend
  import opened LogReader
  import opened Handlers

  datatype Op =
    | ReadOp(len: nat)
    | SeekOp(distance: int, whence: Whence)
    | AppendOp(req: AppendReq, env: Env)  // somebody posts to the same artifact

  /** The appends among the operations. */
  function CallsIn(ops: seq<Op>): seq<Call> {
    if ops == [] then []
    else
      var last := ops[|ops| - 1];
      CallsIn(ops[..|ops| - 1]) + if last.AppendOp? then [Call(last.req, last.env)] else []
  }

  datatype Outcome =
    | DidRead(bytes: Bytes, err: ReadError)
    | DidSeek(pos: int, failed: bool)
    | Unseen

  /** The byte array with a position, over a sequence of operations; appends are invisible to it. */
  function Expected(content: Bytes, pos: int, ops: seq<Op>): seq<Outcome>
    requires 0 <= pos <= |content|
    decreases |ops|
  {
    if ops == [] then []
    else
      var (outcome, pos') := ExpectedOnce(content, pos, ops[0]);
      [outcome] + Expected(content, pos', ops[1..])
  }

  function ExpectedOnce(content: Bytes, pos: int, op: Op): (r: (Outcome, int))
    requires 0 <= pos <= |content|
    ensures 0 <= r.1 <= |content|
  {
    match op
    case ReadOp(len) =>
      var (bytes, pos', err) := ReadSpec(content, pos, len);
      (DidRead(bytes, err), pos')
    case SeekOp(distance, whence) =>
      var (pos', failed) := SeekSpec(content, pos, distance, whence);
      (DidSeek(pos', failed), pos')
    case AppendOp(_, _) => (Unseen, pos)
  }

  /** What is expected of the operation in place k, in terms of the bytes and the position it meets. */
  lemma {:induction false} ExpectedAt(content: Bytes, pos: int, ops: seq<Op>, k: nat)
    requires 0 <= pos <= |content| && k < |ops|
    ensures |Expected(content, pos, ops)| == |ops|
    ensures var here, next := PositionAfter(content, pos, ops[..k]), PositionAfter(content, pos, ops[..k + 1]);
            match (ops[k], Expected(content, pos, ops)[k])
            case (ReadOp(len), DidRead(bytes, err)) =>
              && |bytes| == Min(len, |content| - here) && bytes == content[here..here + |bytes|]
              && next == here + |bytes|
              && err == if len > 0 && next == |content| then EOF else NoError
            case (SeekOp(distance, whence), DidSeek(p, failed)) =>
              var target := if whence == SeekSet then distance else if whence == SeekCur then here + distance else |content| + distance;
              && (failed <==> !(0 <= target <= |content|))
              && p == next == if failed then here else target
            case (AppendOp(_, _), Unseen) => next == here
            case _ => false
    decreases |ops|
  {
    hide Expected, PositionAfter;
    var op := ops[k];
    assert ops[..k + 1] == ops[..k] + [op];
    ExpectedConcat(content, pos, ops[..k], op);
    ExpectedPrefix(content, pos, ops, k + 1);
    ExpectedPrefix(content, pos, ops, k);
    ExpectedPrefix(content, pos, ops[..k], 0);
    assert Expected(content, pos, ops)[k] == Expected(content, pos, ops[..k + 1])[k];
  }

  lemma {:induction false} ExpectedConcat(content: Bytes, pos: int, ops: seq<Op>, op: Op)
    requires 0 <= pos <= |content|
    ensures var pos' := PositionAfter(content, pos, ops);
            && Expected(content, pos, ops + [op]) == Expected(content, pos, ops) + [ExpectedOnce(content, pos', op).0]
            && PositionAfter(content, pos, ops + [op]) == ExpectedOnce(content, pos', op).1
    decreases |ops|
  {
    hide ExpectedOnce;
    if ops == [] {
      assert [] + [op] == [op] && [op][1..] == [];
    } else {
      assert (ops + [op])[0] == ops[0] && (ops + [op])[1..] == ops[1..] + [op];
      ExpectedConcat(content, ExpectedOnce(content, pos, ops[0]).1, ops[1..], op);
    }
  }

  function PositionAfter(content: Bytes, pos: int, ops: seq<Op>): (r: int)
    requires 0 <= pos <= |content|
    ensures 0 <= r <= |content|
    decreases |ops|
  {
    if ops == [] then pos else PositionAfter(content, ExpectedOnce(content, pos, ops[0]).1, ops[1..])
  }

  /** The artifact the reader was made for, which may have grown since. */
  predicate Growing(s: Store, id: nat, size: int) {
    && id in s.entries && s.entries[id].row.id == id
    && s.entries[id].row.state in {APPENDING, APPEND_COMPLETE} && size <= s.entries[id].row.size
  }

  /** An append changes nothing in the snapshot a reader works on. */
  lemma AppendKeepsSnapshot(e: Entry, req: AppendReq, env: Env, content: Bytes)
    requires Snapshot(e.chunks, content) && |content| <= e.row.size
    ensures var e' := AppendEntry(e, req, env);
            && Snapshot(e'.chunks, content) && |content| <= e'.row.size
            && e'.row.id == e.row.id && e'.row.state == e.row.state
  {
    hide Snapshot, LastChunk;
    if Lands(LogOf(e), req, env) {
      SnapshotSurvivesGrowth(e.chunks, content, [ChunkOf(req)]);
    }
  }

  /**
    Snapshot stability and invisible read-ahead: as long as the database answers, the outcomes are
    those of the reader's content alone. Neither `readAhead` nor anything appended shows, while
    every append has its effect on the table.
   */
  method Perform(r: LogChunkReader, ops: seq<Op>) returns (outcomes: seq<Outcome>, answered: bool)
    requires r.db.Valid() && r.Valid() && Growing(r.db.store, r.artifact.id, r.artifact.size)
    modifies r`offset, r`unread, r.db`store, r.db`log, r.db`dbFaults
    ensures r.db.Valid() && r.Valid() && Growing(r.db.store, r.artifact.id, r.artifact.size)
    ensures answered ==> |outcomes| == |ops|
    ensures old(r.db.dbFaults) <= r.db.dbFaults && (!answered ==> old(r.db.dbFaults) < r.db.dbFaults)
    ensures answered ==>
              && outcomes == Expected(r.content, old(r.offset), ops)
              && r.offset == PositionAfter(r.content, old(r.offset), ops)
    ensures !answered ==>
              && |outcomes| < |ops| && ops[|outcomes|].ReadOp?
              && outcomes == Expected(r.content, old(r.offset), ops[..|outcomes|])
    ensures (forall op <- ops :: !op.AppendOp?) ==> r.db.store == old(r.db.store)
    ensures answered ==>
              LogOf(r.db.store.entries[r.artifact.id]) == AppendAll(old(LogOf(r.db.store.entries[r.artifact.id])), CallsIn(ops))
  {
    hide Inv, Legal, Replay, Snapshot, OnlyArtifact, Expected, PositionAfter, ExpectedOnce, AppendEntry, Append, AppendAll;
    outcomes := [];
    ghost var start, log := r.offset, LogOf(r.db.store.entries[r.artifact.id]);
    assert ops[..0] == [];
    NothingExpected(r.content, start);
    NothingAppended(log);
    for k := 0 to |ops|
      invariant r.db.Valid() && r.Valid() && Growing(r.db.store, r.artifact.id, r.artifact.size)
      invariant outcomes == Expected(r.content, start, ops[..k]) && |outcomes| == k
      invariant r.offset == PositionAfter(r.content, start, ops[..k])
      invariant old(r.db.dbFaults) <= r.db.dbFaults
      invariant LogOf(r.db.store.entries[r.artifact.id]) == AppendAll(log, CallsIn(ops[..k]))
      invariant (forall op <- ops :: !op.AppendOp?) ==> r.db.store == old(r.db.store)
    {
      assert ops[k] in ops;
      assert ops[..k + 1] == ops[..k] + [ops[k]];
      ExpectedConcat(r.content, start, ops[..k], ops[k]);
      OneMoreCall(log, ops, k);
      var outcome, ok := PerformOnce(r, ops[k]);
      if !ok {
        return outcomes, false;
      }
      outcomes := outcomes + [outcome];
    }
    assert ops[..|ops|] == ops;
    answered := true;
  }

  lemma NothingExpected(content: Bytes, pos: int)
    requires 0 <= pos <= |content|
    ensures Expected(content, pos, []) == [] && PositionAfter(content, pos, []) == pos
  {
  }

  lemma NothingAppended(log: Log)
    ensures AppendAll(log, CallsIn([])) == log
  {
  }

  lemma OneMoreCall(log: Log, ops: seq<Op>, k: nat)
    requires k < |ops|
    ensures var log' := AppendAll(log, CallsIn(ops[..k]));
            AppendAll(log, CallsIn(ops[..k + 1])) ==
            if ops[k].AppendOp? then Append(log', ops[k].req, ops[k].env).0 else log'
  {
    hide Append, AppendAll;
    assert ops[..k + 1][..k] == ops[..k];
    if ops[k].AppendOp? {
      AppendAllSnoc(log, CallsIn(ops[..k]), Call(ops[k].req, ops[k].env));
    } else {
      assert CallsIn(ops[..k]) + [] == CallsIn(ops[..k]);
    }
  }

  method PerformOnce(r: LogChunkReader, op: Op) returns (outcome: Outcome, answered: bool)
    requires r.db.Valid() && r.Valid() && Growing(r.db.store, r.artifact.id, r.artifact.size)
    modifies r`offset, r`unread, r.db`store, r.db`log, r.db`dbFaults
    ensures r.db.Valid() && r.Valid() && Growing(r.db.store, r.artifact.id, r.artifact.size)
    ensures answered ==> (outcome, r.offset) == ExpectedOnce(r.content, old(r.offset), op)
    ensures !answered ==> op.ReadOp?
    ensures old(r.db.dbFaults) <= r.db.dbFaults && (!answered ==> old(r.db.dbFaults) < r.db.dbFaults)
    ensures !op.AppendOp? ==> r.db.store == old(r.db.store)
    ensures var log, log' := old(LogOf(r.db.store.entries[r.artifact.id])), LogOf(r.db.store.entries[r.artifact.id]);
            log' == if op.AppendOp? then Append(log, op.req, op.env).0 else log
  {
    hide Inv, Legal, Replay, Snapshot, OnlyArtifact, AppendEntry, Append, ReadSpec, SeekSpec;
    match op
    case ReadOp(len) =>
      var p := new Byte[len];
      var n, err := r.Read(p);
      outcome, answered := DidRead(p[..n], err), err != DbError;
    case SeekOp(distance, whence) =>
      var pos, failed := r.Seek(distance, whence);
      outcome, answered := DidSeek(pos, failed), true;
    case AppendOp(req, env) =>
      AppendKeepsSnapshot(r.db.store.entries[r.artifact.id], req, env, r.content);
      LogOfAppendEntry(r.db.store.entries[r.artifact.id], req, env);
      var _ := AppendLogChunk(r.db, r.db.store.entries[r.artifact.id].row, req, env);
      outcome, answered := Unseen, true;
  }

  lemma {:induction false} ExpectedPrefix(content: Bytes, pos: int, ops: seq<Op>, k: nat)
    requires 0 <= pos <= |content| && k <= |ops|
    ensures |Expected(content, pos, ops)| == |ops| && Expected(content, pos, ops[..k]) <= Expected(content, pos, ops)
    decreases |ops|
  {
    hide ExpectedOnce;
    if k > 0 {
      var pos' := ExpectedOnce(content, pos, ops[0]).1;
      ExpectedPrefix(content, pos', ops[1..], k - 1);
      assert ops[..k][0] == ops[0] && ops[..k][1..] == ops[1..][..k - 1];
    } else if ops != [] {
      ExpectedPrefix(content, ExpectedOnce(content, pos, ops[0]).1, ops[1..], 0);
    }
  }

  /**
    Two readers of the same bytes from the same position cannot be told apart: not by any outcome up
    to the first read the database does not answer, and so not at all when it answers them all.
   */
  method ReadAheadIsInvisible(r1: LogChunkReader, r2: LogChunkReader, ops: seq<Op>)
    returns (outcomes1: seq<Outcome>, outcomes2: seq<Outcome>, answered: bool)
    requires r1 != r2 && r1.db == r2.db && r1.artifact == r2.artifact && r1.content == r2.content && r1.offset == r2.offset
    requires r1.db.Valid() && r1.Valid() && r2.Valid() && Growing(r1.db.store, r1.artifact.id, r1.artifact.size)
    requires forall op <- ops :: !op.AppendOp?
    modifies r1`offset, r1`unread, r2`offset, r2`unread, r1.db`store, r1.db`log, r1.db`dbFaults
    ensures answered ==> outcomes1 == outcomes2 && r1.offset == r2.offset && |outcomes1| == |ops|
    ensures r1.db.dbFaults == old(r1.db.dbFaults) ==> answered
    ensures outcomes1 <= outcomes2 || outcomes2 <= outcomes1
    ensures !answered ==> |outcomes1| < |ops| || |outcomes2| < |ops|
  {
    hide Inv, Legal, Replay, Snapshot, Expected, PositionAfter, ExpectedOnce;
    ghost var start := r1.offset;
    var a1, a2: bool;
    outcomes1, a1 := Perform(r1, ops);
    outcomes2, a2 := Perform(r2, ops);
    answered := a1 && a2;
    ExpectedPrefix(r1.content, start, ops, |outcomes1|);
    ExpectedPrefix(r1.content, start, ops, |outcomes2|);
    assert ops[..|ops|] == ops;
  }
}
