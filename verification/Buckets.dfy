/** Bucket handlers, artifact creation, and what any sequence of requests does to a closed bucket. */
module Buckets {
  import opened Prelude
  import opened Model
  import opened LogChunks
  import opened Appends
  import opened Store
  import opened Backend
  import opened Handlers

  const NOT_FOUND := 404
  const TOO_LARGE := 413
  const DEFAULT_DEADLINE := 30
  const MAX_DUPLICATE_FILE_NAME_RESOLUTION_ATTEMPTS := 5
  const SUFFIX_LENGTH := 5

  // ----- what requests leave alone -----

  /** Buckets frozen before are frozen still, and nothing of theirs has changed. */
  ghost predicate KeepsFrozen(s: Store, s': Store) {
    && s.buckets.Keys <= s'.buckets.Keys
    && (forall id <- s.entries :: id in s'.entries && s'.entries[id].row.bucketId == s.entries[id].row.bucketId)
    && (SlashFree(s') ==> forall b <- s.buckets :: Frozen(s, b) ==> Frozen(s', b) && SamePart(s, s', b))
  }

  lemma KeepsFrozenRefl(s: Store)
    ensures KeepsFrozen(s, s)
  {
  }

  lemma KeepsFrozenTrans(s1: Store, s2: Store, s3: Store)
    requires KeepsFrozen(s1, s2) && KeepsFrozen(s2, s3)
    ensures KeepsFrozen(s1, s3)
  {
    hide S3Key, Frozen;
    if SlashFree(s3) {
      assert SlashFree(s2);
      forall b <- s1.buckets | Frozen(s1, b) ensures Frozen(s3, b) && SamePart(s1, s3, b) {
        assert b in s2.buckets;
        SamePartTrans(s1, s2, s3, b);
      }
    }
  }

  lemma SamePartTrans(s1: Store, s2: Store, s3: Store, b: string)
    requires SamePart(s1, s2, b) && SamePart(s2, s3, b)
    ensures SamePart(s1, s3, b)
  {
    hide S3Key;
    if '/' !in b {
      forall name ensures SameObject(s1, s3, S3Key(b, name)) {
        assert SameObject(s1, s2, S3Key(b, name)) && SameObject(s2, s3, S3Key(b, name));
      }
    }
  }

  /** Work on one artifact that leaves it alone once it is quiescent. */
  lemma ArtifactWorkKeepsFrozen(s: Store, s': Store, id: nat)
    requires RowsInv(s) && OnlyArtifact(s, s', id)
    requires Quiescent(s.entries[id].row.state) ==> s' == s
    ensures KeepsFrozen(s, s')
  {
    hide S3Key, EntryInv, Later, SamePart;
    KeepsFrozenRefl(s);
    OtherRowsKept(s, s', id);
    if SlashFree(s') && s' != s {
      assert SlashFree(s);
      forall b <- s.buckets | Frozen(s, b) ensures Frozen(s', b) && SamePart(s, s', b) {
        OtherArtifactKeepsFrozen(s, s', id, b);
      }
    }
  }

  /** Only artifacts of one bucket were added; everything there was is as before. */
  ghost predicate OnlyAdds(s: Store, s': Store, bucketId: string) {
    && s'.buckets == s.buckets && s'.objects == s.objects
    && (forall id <- s.entries :: id in s'.entries && s'.entries[id] == s.entries[id])
    && (forall id <- s'.entries :: id !in s.entries ==> s'.entries[id].row.bucketId == bucketId)
  }

  lemma AddingKeepsFrozen(s: Store, s': Store, bucketId: string)
    requires OnlyAdds(s, s', bucketId)
    requires bucketId in s.buckets && s.buckets[bucketId].state == OPEN
    ensures KeepsFrozen(s, s')
  {
    hide S3Key;
  }

  lemma NewBucketKeepsFrozen(s: Store, bucket: Bucket)
    requires bucket.id !in s.buckets
    ensures KeepsFrozen(s, s.(buckets := s.buckets[bucket.id := bucket]))
  {
    hide S3Key;
  }

  lemma ClosingKeepsFrozen(s: Store, bucket: Bucket)
    requires bucket.id in s.buckets && s.buckets[bucket.id].state == OPEN
    ensures KeepsFrozen(s, s.(buckets := s.buckets[bucket.id := bucket]))
  {
    hide S3Key;
  }

  // ----- buckets -----

  predicate VerifyBucketFields(bucket: Bucket) {
    bucket.id != "" && bucket.state in {OPEN, CLOSED, TIMEDOUT} && bucket.owner != ""
  }

  method CreateBucket(b: Backend, bucketId: string, owner: string, now: int) returns (status: int)
    requires b.Valid()
    modifies b`store, b`log, b`dbFaults
    ensures b.Valid() && old(b.log) <= b.log && KeepsFrozen(old(b.store), b.store)
    ensures b.store.entries == old(b.store.entries) && b.store.objects == old(b.store.objects)
    ensures status == OK ==>
              && bucketId != "" && owner != "" && bucketId !in old(b.store).buckets
              && b.store == old(b.store).(buckets := old(b.store).buckets[bucketId := Bucket(bucketId, owner, OPEN, now, 0)])
    ensures bucketId == "" || owner == "" ==> status == BAD_REQUEST && b.store == old(b.store)
    ensures bucketId in old(b.store).buckets ==> status in {BAD_REQUEST, SERVER_ERROR} && b.store == old(b.store)
    ensures status != OK && bucketId != "" && owner != "" && bucketId !in old(b.store).buckets ==>
              b.dbFaults > old(b.dbFaults)
    ensures old(b.dbFaults) <= b.dbFaults
  {
    hide Inv, Legal, Replay, KeepsFrozen;
    KeepsFrozenRefl(b.store);
    if bucketId == "" {
      return BAD_REQUEST;
    }
    if |owner| == 0 {
      return BAD_REQUEST;
    }
    var dbError := b.Query();
    if dbError {
      return SERVER_ERROR;
    }
    if bucketId in b.store.buckets {
      return BAD_REQUEST;
    }
    var bucket := Bucket(bucketId, owner, OPEN, now, 0);
    if !VerifyBucketFields(bucket) {
      return BAD_REQUEST;
    }
    NewBucketKeepsFrozen(b.store, bucket);
    var fate: Fate := *;
    var failed := b.Commit(NewBucket(bucket), fate);
    return if failed then BAD_REQUEST else OK;
  }

  /** SELECT of the artifact rows of a bucket, each once; the query asks for no order. */
  method ListArtifactsInBucket(b: Backend, bucketId: string) returns (rows: seq<Artifact>, failed: bool)
    requires b.Valid()
    modifies b`dbFaults
    ensures b.Valid() && b.dbFaults == old(b.dbFaults) + if failed then 1 else 0
    ensures !failed ==>
              && (forall k :: 0 <= k < |rows| ==> Bound(b.store, rows[k]) && rows[k].bucketId == bucketId)
              && (forall k, l :: 0 <= k < l < |rows| ==> rows[k].id != rows[l].id)
              && (forall id <- b.store.entries ::
                    b.store.entries[id].row.bucketId == bucketId ==> b.store.entries[id].row in rows)
  {
    hide Legal, Replay, EntryInv, Unique, ObjectsInv;
    failed := b.Query();
    rows := [];
    if failed {
      return;
    }
    for id := 0 to b.nextId
      invariant forall k :: 0 <= k < |rows| ==> Bound(b.store, rows[k]) && rows[k].bucketId == bucketId && rows[k].id < id
      invariant forall k, l :: 0 <= k < l < |rows| ==> rows[k].id < rows[l].id
      invariant forall i <- b.store.entries ::
                  i < id && b.store.entries[i].row.bucketId == bucketId ==> b.store.entries[i].row in rows
    {
      if id in b.store.entries && b.store.entries[id].row.bucketId == bucketId {
        rows := rows + [b.store.entries[id].row];
      }
    }
  }

  /** Close the bucket and then every artifact in it; the first failure ends it. */
  method CloseBucket(b: Backend, bucket: Bucket, now: int) returns (failed: bool)
    requires b.Valid()
    requires bucket.id in b.store.buckets && b.store.buckets[bucket.id] == bucket
    modifies b`store, b`log, b`dbFaults, b`putAttempts, b`bytesUploaded, b`s3Faults
    ensures b.Valid() && old(b.log) <= b.log && KeepsFrozen(old(b.store), b.store)
    ensures bucket.state != OPEN ==> failed && b.store == old(b.store)
    ensures b.store != old(b.store) ==> b.store.buckets == old(b.store).buckets[bucket.id := bucket.(state := CLOSED, dateClosed := now)]
    ensures forall id <- old(b.store).entries :: old(b.store).entries[id].row.bucketId != bucket.id ==>
              id in b.store.entries && b.store.entries[id] == old(b.store).entries[id]
    ensures !failed ==>
              && Frozen(b.store, bucket.id)
              && (forall id <- old(b.store).entries :: old(b.store).entries[id].row.bucketId == bucket.id ==>
                    id in b.store.entries && RowClosed(old(b.store).entries[id].row, b.store.entries[id].row))
              && b.store.buckets[bucket.id] == bucket.(state := CLOSED, dateClosed := now)
    ensures NoFewerFaults(old(b.dbFaults), old(b.s3Faults), b)
    ensures failed && bucket.state == OPEN && AllClosable(old(b.store), bucket.id) ==>
              Faulted(old(b.dbFaults), old(b.s3Faults), b)
  {
    hide Inv, Legal, Replay, KeepsFrozen, OnlyArtifact, Edge, S3Key, CloseDone;
    ghost var s0 := b.store;
    KeepsFrozenRefl(s0);
    BucketFields(s0, bucket.id);
    if bucket.state != OPEN {
      return true;
    }
    var closed := bucket.(state := CLOSED, dateClosed := now);
    if !VerifyBucketFields(closed) {
      return true;
    }
    ClosingKeepsFrozen(s0, closed);
    var fate: Fate := *;
    failed := b.Commit(SetBucket(closed), fate);
    if failed {
      return;
    }
    var artifacts: seq<Artifact>;
    artifacts, failed := ListArtifactsInBucket(b, bucket.id);
    if failed {
      return;
    }
    ghost var s1 := b.store;
    IdsMatch(s1);
    failed := CloseArtifacts(b, artifacts);
    KeepsFrozenTrans(s0, s1, b.store);
    if !failed {
      AllClosed(s1, b.store, artifacts, bucket.id);
    }
  }

  /** Only failing calls can keep the artifacts of the bucket from being closed. */
  predicate AllClosable(s: Store, bucketId: string) {
    forall id <- s.entries :: s.entries[id].row.bucketId == bucketId ==> Closable(s.entries[id])
  }

  lemma BucketFields(s: Store, bucketId: string)
    requires Inv(s) && bucketId in s.buckets
    ensures s.buckets[bucketId].id == bucketId != "" && s.buckets[bucketId].owner != ""
  {
    hide EntryInv, Unique, ObjectsInv;
  }

  /** Same buckets and artifacts, each artifact in the bucket it was in. */
  predicate SameShape(s: Store, s': Store) {
    && s'.buckets == s.buckets && s'.entries.Keys == s.entries.Keys
    && forall id <- s.entries :: s'.entries[id].row.bucketId == s.entries[id].row.bucketId
  }

  /** The loop of CloseBucket over the rows it listed. */
  method CloseArtifacts(b: Backend, artifacts: seq<Artifact>) returns (failed: bool)
    requires b.Valid()
    requires forall k :: 0 <= k < |artifacts| ==> Bound(b.store, artifacts[k])
    requires forall k, l :: 0 <= k < l < |artifacts| ==> artifacts[k].id != artifacts[l].id
    modifies b`store, b`log, b`dbFaults, b`putAttempts, b`bytesUploaded, b`s3Faults
    ensures b.Valid() && old(b.log) <= b.log && KeepsFrozen(old(b.store), b.store) && SameShape(old(b.store), b.store)
    ensures forall id <- old(b.store).entries :: (forall a <- artifacts :: a.id != id) ==>
              id in b.store.entries && b.store.entries[id] == old(b.store).entries[id]
    ensures !failed ==> forall a <- artifacts :: a.id in b.store.entries && RowClosed(a, b.store.entries[a.id].row)
    ensures NoFewerFaults(old(b.dbFaults), old(b.s3Faults), b)
    ensures failed && (forall a <- artifacts :: a.id in old(b.store).entries && Closable(old(b.store).entries[a.id])) ==>
              Faulted(old(b.dbFaults), old(b.s3Faults), b)
  {
    hide Inv, Legal, Replay, KeepsFrozen, RowClosed, Closable, SameShape, OnlyFirst, FirstClosed;
    ghost var s0 := b.store;
    KeepsFrozenRefl(s0);
    NoneClosed(s0, artifacts);
    for k := 0 to |artifacts|
      invariant b.Valid() && old(b.log) <= b.log && KeepsFrozen(s0, b.store)
      invariant OnlyFirst(s0, b.store, artifacts, k) && FirstClosed(b.store, artifacts, k)
      invariant NoFewerFaults(old(b.dbFaults), old(b.s3Faults), b)
    {
      ghost var s := b.store;
      NextIsUntouched(s0, s, artifacts, k);
      failed := CloseListed(b, artifacts[k]);
      KeepsFrozenTrans(s0, s, b.store);
      OneMoreTouched(s0, s, b.store, artifacts, k);
      if failed {
        OnlyThoseTouched(s0, b.store, artifacts, k + 1);
        return;
      }
      OneMoreClosed(s, b.store, artifacts, k);
    }
    OnlyThoseTouched(s0, b.store, artifacts, |artifacts|);
    AllOfThemClosed(b.store, artifacts);
    failed := false;
  }

  /** At most the first k of the listed artifacts have changed. */
  predicate OnlyFirst(s: Store, s': Store, artifacts: seq<Artifact>, k: nat)
    requires k <= |artifacts|
  {
    && SameShape(s, s')
    && forall id <- s.entries :: (forall i :: 0 <= i < k ==> artifacts[i].id != id) ==> s'.entries[id] == s.entries[id]
  }

  predicate FirstClosed(s: Store, artifacts: seq<Artifact>, k: nat)
    requires k <= |artifacts|
  {
    forall i :: 0 <= i < k ==> artifacts[i].id in s.entries && RowClosed(artifacts[i], s.entries[artifacts[i].id].row)
  }

  lemma NoneClosed(s: Store, artifacts: seq<Artifact>)
    ensures OnlyFirst(s, s, artifacts, 0) && FirstClosed(s, artifacts, 0)
  {
  }

  lemma NextIsUntouched(s: Store, s': Store, artifacts: seq<Artifact>, k: nat)
    requires k < |artifacts| && OnlyFirst(s, s', artifacts, k) && Bound(s, artifacts[k])
    requires forall i :: 0 <= i < k ==> artifacts[i].id != artifacts[k].id
    ensures artifacts[k].id in s'.entries && s'.entries[artifacts[k].id] == s.entries[artifacts[k].id]
    ensures Bound(s', artifacts[k]) && artifacts[k] in artifacts
  {
  }

  lemma OneMoreTouched(s0: Store, s: Store, s': Store, artifacts: seq<Artifact>, k: nat)
    requires k < |artifacts| && OnlyFirst(s0, s, artifacts, k)
    requires SameShape(s, s') && forall id <- s.entries :: artifacts[k].id != id ==> s'.entries[id] == s.entries[id]
    ensures OnlyFirst(s0, s', artifacts, k + 1)
  {
    forall id <- s0.entries | forall i :: 0 <= i < k + 1 ==> artifacts[i].id != id
      ensures s'.entries[id] == s0.entries[id]
    {
      assert artifacts[k].id != id;
      assert forall i :: 0 <= i < k ==> artifacts[i].id != id;
    }
  }

  lemma OneMoreClosed(s: Store, s': Store, artifacts: seq<Artifact>, k: nat)
    requires k < |artifacts| && FirstClosed(s, artifacts, k)
    requires forall i :: 0 <= i < k ==> artifacts[i].id != artifacts[k].id
    requires SameShape(s, s') && forall id <- s.entries :: artifacts[k].id != id ==> s'.entries[id] == s.entries[id]
    requires artifacts[k].id in s'.entries && RowClosed(artifacts[k], s'.entries[artifacts[k].id].row)
    ensures FirstClosed(s', artifacts, k + 1)
  {
    hide RowClosed;
  }

  lemma OnlyThoseTouched(s: Store, s': Store, artifacts: seq<Artifact>, k: nat)
    requires k <= |artifacts| && OnlyFirst(s, s', artifacts, k)
    ensures SameShape(s, s')
    ensures forall id <- s.entries :: (forall a <- artifacts :: a.id != id) ==>
              id in s'.entries && s'.entries[id] == s.entries[id]
  {
    forall id <- s.entries | forall a <- artifacts :: a.id != id ensures id in s'.entries && s'.entries[id] == s.entries[id] {
      assert forall i :: 0 <= i < k ==> artifacts[i] in artifacts;
    }
  }

  lemma AllOfThemClosed(s: Store, artifacts: seq<Artifact>)
    requires FirstClosed(s, artifacts, |artifacts|)
    ensures forall a <- artifacts :: a.id in s.entries && RowClosed(a, s.entries[a.id].row)
  {
    hide RowClosed;
  }

  /** One of them. */
  method CloseListed(b: Backend, a: Artifact) returns (failed: bool)
    requires b.Valid() && Bound(b.store, a)
    modifies b`store, b`log, b`dbFaults, b`putAttempts, b`bytesUploaded, b`s3Faults
    ensures b.Valid() && old(b.log) <= b.log && KeepsFrozen(old(b.store), b.store) && SameShape(old(b.store), b.store)
    ensures forall id <- old(b.store).entries :: a.id != id ==>
              id in b.store.entries && b.store.entries[id] == old(b.store).entries[id]
    ensures a.id in b.store.entries
    ensures !failed ==> RowClosed(a, b.store.entries[a.id].row)
    ensures NoFewerFaults(old(b.dbFaults), old(b.s3Faults), b)
    ensures failed && Closable(old(b.store).entries[a.id]) ==> Faulted(old(b.dbFaults), old(b.s3Faults), b)
  {
    hide Inv, Legal, Replay, KeepsFrozen, OnlyArtifact, S3Key, CloseDone, Quiescent, RowsInv, RowClosed, Closable;
    ghost var s := b.store;
    IdsMatch(s);
    failed := CloseArtifact(b, a);
    QuiescentIsNotOpen(a.state);
    ArtifactWorkKeepsFrozen(s, b.store, a.id);
    OtherRowsKept(s, b.store, a.id);
    if !failed {
      CloseDoneClosesRow(s.entries[a.id], b.store.entries[a.id], b.store.objects);
    }
  }

  lemma QuiescentIsNotOpen(state: ArtifactState)
    ensures Quiescent(state) ==> state !in {APPENDING, WAITING_FOR_UPLOAD}
  {
  }

  lemma AllClosed(s: Store, s': Store, artifacts: seq<Artifact>, bucketId: string)
    requires forall id <- s.entries :: s.entries[id].row.id == id
    requires forall id <- s.entries :: s.entries[id].row.bucketId == bucketId ==> s.entries[id].row in artifacts
    requires SameShape(s, s') && bucketId in s.buckets && s.buckets[bucketId].state == CLOSED
    requires forall a <- artifacts :: a.id in s'.entries && RowClosed(a, s'.entries[a.id].row)
    ensures Frozen(s', bucketId)
    ensures forall id <- s.entries ::
              s.entries[id].row.bucketId == bucketId ==> RowClosed(s.entries[id].row, s'.entries[id].row)
  {
    forall id <- s.entries | s.entries[id].row.bucketId == bucketId
      ensures RowClosed(s.entries[id].row, s'.entries[id].row)
    {
      assert s.entries[id].row in artifacts;
    }
  }

  lemma IdsMatch(s: Store)
    requires Inv(s)
    ensures RowsInv(s) && forall id <- s.entries :: s.entries[id].row.id == id
  {
    hide EntryInv;
  }

  /** How a successful close of its bucket leaves an artifact row. */
  predicate RowClosed(a: Artifact, a': Artifact) {
    match a.state
    case UPLOADED => a' == a
    case APPEND_COMPLETE => a' == a
    case APPENDING =>
      a' == if a.size == 0 then a.(state := CLOSED_WITHOUT_DATA) else a.(state := UPLOADED, s3url := a.DefaultS3URL())
    case WAITING_FOR_UPLOAD => a' == a.(state := CLOSED_WITHOUT_DATA)
    case _ => false
  }

  lemma CloseDoneClosesRow(e: Entry, e': Entry, objects: map<string, Bytes>)
    requires CloseDone(e, e', objects)
    ensures RowClosed(e.row, e'.row)
  {
  }

  lemma OtherRowsKept(s: Store, s': Store, id: nat)
    requires OnlyArtifact(s, s', id)
    ensures s'.buckets == s.buckets && s'.entries.Keys == s.entries.Keys
    ensures forall i <- s.entries :: s'.entries[i].row.bucketId == s.entries[i].row.bucketId
    ensures forall i <- s.entries :: i != id ==> s'.entries[i] == s.entries[i]
  {
    hide S3Key;
    OtherEntriesSame(s, s', id);
  }

  // ----- creating artifacts -----

  datatype CreateReq = CreateReq(name: string, chunked: bool, size: int, deadlineMins: nat, relativePath: string)

  /** INSERT of an artifact row under a fresh id; the unique constraint on (bucketid, name) may refuse it. */
  method InsertArtifact(b: Backend, a: Artifact) returns (inserted: Artifact, failed: bool)
    requires b.Valid()
    requires a.bucketId in b.store.buckets && b.store.buckets[a.bucketId].state == OPEN
    requires a.s3url == ""
    requires || (a.state == APPENDING && a.size == 0)
             || (a.state == WAITING_FOR_UPLOAD && a.size != 0 && a.size <= MAX_ARTIFACT_SIZE_BYTES)
    modifies b`store, b`log, b`dbFaults, b`nextId
    ensures b.Valid() && old(b.log) <= b.log && |b.log| <= |old(b.log)| + 1
    ensures OnlyAdds(old(b.store), b.store, a.bucketId) && b.store.buckets == old(b.store).buckets
    ensures NameTaken(old(b.store), a.bucketId, a.name) ==> failed && b.store == old(b.store)
    ensures failed && !NameTaken(old(b.store), a.bucketId, a.name) ==> b.dbFaults > old(b.dbFaults)
    ensures old(b.dbFaults) <= b.dbFaults && b.nextId == old(b.nextId) + 1
    ensures !failed ==>
              inserted == a.(id := inserted.id) && FreshRow(old(b.store), b.store, inserted)
  {
    hide Inv, Legal, Replay;
    inserted := a.(id := b.nextId);
    b.nextId := b.nextId + 1;
    if NameTaken(b.store, a.bucketId, a.name) {
      return a, true;
    }
    var fate: Fate := *;
    failed := b.Commit(NewArtifact(inserted), fate);
  }

  const ALPHABET := "0123456789abcdefghijklmnopqrstuvwxyzABCDEFGHIJKLMNOPQRSTUVWXYZ"

  method RandString(n: nat) returns (s: string)
    ensures |s| == n && forall c <- s :: c in ALPHABET
  {
    s := "";
    for i := 0 to n
      invariant |s| == i && forall c <- s :: c in ALPHABET
    {
      assert ALPHABET[0] in ALPHABET;
      var c: char :| c in ALPHABET;
      s := s + [c];
    }
  }

  /** The request asks for an artifact an open bucket can have. */
  predicate Creatable(req: CreateReq) {
    req.name != "" && (req.chunked || (req.size != 0 && req.size <= MAX_ARTIFACT_SIZE_BYTES))
  }

  /** A row as requested, but for its id and its name. */
  predicate Requested(req: CreateReq, bucketId: string, a: Artifact) {
    && a.bucketId == bucketId && a.s3url == ""
    && a.state == (if req.chunked then APPENDING else WAITING_FOR_UPLOAD)
    && a.size == (if req.chunked then 0 else req.size)
    && a.deadlineMins == (if req.deadlineMins == 0 then DEFAULT_DEADLINE else req.deadlineMins)
    && a.relativePath == (if req.relativePath == "" then req.name else req.relativePath)
  }

  /** The requested name, or that name with a suffix. */
  predicate NamedFor(req: CreateReq, name: string) {
    var base := req.name + ".dup.";
    name == req.name || (base <= name && |name| == |base| + SUFFIX_LENGTH)
  }

  /** A fresh row, as it was inserted, under a name nobody had. */
  predicate FreshRow(s: Store, s': Store, a: Artifact) {
    && a.id !in s.entries && Bound(s', a) && !NameTaken(s, a.bucketId, a.name)
    && s'.entries[a.id].content == [] && s'.entries[a.id].chunks == []
  }

  /**
    Create an artifact in an open bucket, under the requested name or, if an insert fails while a
    row of the attempted name exists, under that name with a random suffix. Without a failing call
    it takes six collisions in a row for a proper request to be refused.
   */
  method CreateArtifact(b: Backend, req: CreateReq, bucket: Bucket) returns (artifact: Artifact, status: int)
    requires b.Valid()
    requires bucket.id in b.store.buckets && b.store.buckets[bucket.id] == bucket
    modifies b`store, b`log, b`dbFaults, b`nextId
    ensures b.Valid() && old(b.log) <= b.log && KeepsFrozen(old(b.store), b.store)
    ensures OnlyAdds(old(b.store), b.store, bucket.id)
    ensures status == OK ==>
              && Creatable(req) && bucket.state == OPEN
              && Requested(req, bucket.id, artifact) && NamedFor(req, artifact.name)
              && FreshRow(old(b.store), b.store, artifact)
    ensures req.name == "" || bucket.state != OPEN || (!req.chunked && req.size == 0) ==>
              status == BAD_REQUEST && b.store == old(b.store)
    ensures req.name != "" && bucket.state == OPEN && !req.chunked && req.size > MAX_ARTIFACT_SIZE_BYTES ==>
              status == TOO_LARGE && b.store == old(b.store)
    ensures status != OK && Creatable(req) && bucket.state == OPEN ==>
              && status == SERVER_ERROR
              && (|| b.dbFaults > old(b.dbFaults)
                  || (NameTaken(old(b.store), bucket.id, req.name)
                      && b.nextId == old(b.nextId) + 1 + MAX_DUPLICATE_FILE_NAME_RESOLUTION_ATTEMPTS))
    ensures old(b.dbFaults) <= b.dbFaults
    ensures |b.log| <= |old(b.log)| + 1 + MAX_DUPLICATE_FILE_NAME_RESOLUTION_ATTEMPTS
  {
    hide Inv, Legal, Replay, KeepsFrozen, OnlyAdds, FreshRow, NameTaken;
    KeepsFrozenRefl(b.store);
    NothingAdded(b.store, bucket.id);
    artifact := Artifact(0, bucket.id, req.name, "", 0, APPENDING,
                         if req.deadlineMins == 0 then DEFAULT_DEADLINE else req.deadlineMins,
                         if req.relativePath == "" then req.name else req.relativePath);
    if req.name == "" {
      return artifact, BAD_REQUEST;
    }
    if bucket.state != OPEN {
      return artifact, BAD_REQUEST;
    }
    if !req.chunked {
      if req.size == 0 {
        return artifact, BAD_REQUEST;
      } else if req.size > MAX_ARTIFACT_SIZE_BYTES {
        return artifact, TOO_LARGE;
      }
      artifact := artifact.(size := req.size, state := WAITING_FOR_UPLOAD);
    }
    ghost var s0 := b.store;
    var inserted, failed := InsertArtifact(b, artifact);
    ghost var s1 := b.store;
    if !failed {
      AddingKeepsFrozen(s0, s1, bucket.id);
      return inserted, OK;
    }
    artifact, status := ResolveCollision(b, req, artifact, old(b.dbFaults));
    AddsCompose(s0, s1, b.store, bucket.id);
    AddingKeepsFrozen(s0, b.store, bucket.id);
    if status == OK {
      FreshRowBefore(s0, s1, b.store, bucket.id, artifact);
    }
  }

  /** The retries under other names. `faults` is how many database calls had failed before the first insert. */
  method ResolveCollision(b: Backend, req: CreateReq, first: Artifact, ghost faults: nat)
    returns (artifact: Artifact, status: int)
    requires b.Valid() && Creatable(req) && Requested(req, first.bucketId, first)
    requires first.bucketId in b.store.buckets && b.store.buckets[first.bucketId].state == OPEN
    requires faults < b.dbFaults || (faults == b.dbFaults && NameTaken(b.store, first.bucketId, first.name))
    modifies b`store, b`log, b`dbFaults, b`nextId
    ensures b.Valid() && old(b.log) <= b.log && OnlyAdds(old(b.store), b.store, first.bucketId)
    ensures status == OK ==>
              && Requested(req, first.bucketId, artifact) && NamedFor(req, artifact.name)
              && FreshRow(old(b.store), b.store, artifact)
    ensures status != OK ==>
              && status == SERVER_ERROR
              && (b.dbFaults > faults || b.nextId == old(b.nextId) + MAX_DUPLICATE_FILE_NAME_RESOLUTION_ATTEMPTS)
    ensures old(b.dbFaults) <= b.dbFaults
    ensures |b.log| <= |old(b.log)| + MAX_DUPLICATE_FILE_NAME_RESOLUTION_ATTEMPTS
  {
    hide Inv, Legal, Replay, OnlyAdds, FreshRow, NameTaken;
    ghost var s0 := b.store;
    NothingAdded(s0, first.bucketId);
    artifact := first;
    var attempt := 1;
    while attempt <= MAX_DUPLICATE_FILE_NAME_RESOLUTION_ATTEMPTS
      invariant b.Valid() && old(b.log) <= b.log && |b.log| < |old(b.log)| + attempt
      invariant 1 <= attempt <= 1 + MAX_DUPLICATE_FILE_NAME_RESOLUTION_ATTEMPTS
      invariant b.store.buckets == s0.buckets && OnlyAdds(s0, b.store, first.bucketId)
      invariant b.nextId == old(b.nextId) + attempt - 1 && old(b.dbFaults) <= b.dbFaults
      invariant faults < b.dbFaults || (faults == b.dbFaults && NameTaken(b.store, first.bucketId, artifact.name))
      invariant artifact.bucketId == first.bucketId && Requested(req, first.bucketId, artifact)
    {
      var dbError := b.Query();
      if dbError || !NameTaken(b.store, artifact.bucketId, artifact.name) {
        return artifact, SERVER_ERROR;
      }
      var suffix := RandString(SUFFIX_LENGTH);
      artifact := artifact.(name := req.name + ".dup." + suffix);
      ghost var s := b.store;
      var inserted, failed := InsertArtifact(b, artifact);
      AddsCompose(s0, s, b.store, first.bucketId);
      if !failed {
        FreshRowBefore(s0, s, b.store, first.bucketId, inserted);
        return inserted, OK;
      }
      attempt := attempt + 1;
    }
    return artifact, SERVER_ERROR;
  }

  lemma NothingAdded(s: Store, bucketId: string)
    ensures OnlyAdds(s, s, bucketId)
  {
  }

  lemma AddsCompose(s1: Store, s2: Store, s3: Store, bucketId: string)
    requires OnlyAdds(s1, s2, bucketId) && OnlyAdds(s2, s3, bucketId)
    ensures OnlyAdds(s1, s3, bucketId)
  {
  }

  lemma AddsKeepRows(s: Store, s': Store, bucketId: string)
    requires OnlyAdds(s, s', bucketId)
    ensures s'.buckets == s.buckets && s'.objects == s.objects
    ensures forall id <- s.entries :: id in s'.entries && s'.entries[id] == s.entries[id]
  {
  }

  lemma FreshRowBefore(s0: Store, s: Store, s': Store, bucketId: string, a: Artifact)
    requires OnlyAdds(s0, s, bucketId) && FreshRow(s, s', a)
    ensures FreshRow(s0, s', a)
  {
  }

  // ----- any sequence of requests -----

  datatype Request =
    | CreateBucketReq(bucketId: string, owner: string)
    | CreateArtifactReq(bucketId: string, create: CreateReq)
    | PostReq(bucketId: string, name: string, post: Post)
    | CloseArtifactReq(bucketId: string, name: string)
    | CloseBucketReq(bucketId: string)

  /** The artifact a path names, as the database sees it; a missing row is an error like any other. */
  method BindArtifact(b: Backend, bucketId: string, name: string) returns (artifact: Option<Artifact>)
    requires b.Valid()
    modifies b`dbFaults
    ensures b.Valid() && old(b.dbFaults) <= b.dbFaults
    ensures artifact.Some? ==> Bound(b.store, artifact.value) && Named(artifact.value, bucketId, name)
    ensures artifact.None? ==> b.dbFaults > old(b.dbFaults) || !NameTaken(b.store, bucketId, name)
  {
    hide Legal, Replay, EntryInv, Unique, ObjectsInv;
    var dbError := b.Query();
    if dbError {
      return None;
    }
    if id :| id in b.store.entries && b.store.entries[id].row.bucketId == bucketId && b.store.entries[id].row.name == name {
      return Some(b.store.entries[id].row);
    }
    return None;
  }

  predicate Named(a: Artifact, bucketId: string, name: string) {
    a.bucketId == bucketId && a.name == name
  }

  /** The artifacts a request may work on. */
  predicate Concerns(req: Request, a: Artifact) {
    match req
    case CreateBucketReq(_, _) => false
    case CreateArtifactReq(_, _) => false
    case PostReq(bucketId, name, _) => Named(a, bucketId, name)
    case CloseArtifactReq(bucketId, name) => Named(a, bucketId, name)
    case CloseBucketReq(bucketId) => a.bucketId == bucketId
  }

  /** What a post that is answered 200 did: uploaded, appended, or, for an artifact at its end, nothing. */
  predicate PostDone(e: Entry, e': Entry, objects: map<string, Bytes>, post: Post) {
    match e.row.state
    case WAITING_FOR_UPLOAD => post.contentLength == Some(e.row.size) && PutDone(e, e', objects, post.body)
    case APPENDING =>
      && post.chunk.Some? && Append(LogOf(e), post.chunk.value, post.env).1 == OK
      && e' == AppendEntry(e, post.chunk.value, post.env)
    case _ => e.row.state !in {UPLOADING, UPLOADED, APPEND_COMPLETE} && e' == e
  }

  /** What a request that is answered 200 did. */
  ghost predicate Served(s: Store, req: Request, now: int, s': Store) {
    match req
    case CreateBucketReq(bucketId, owner) =>
      && bucketId !in s.buckets
      && s' == s.(buckets := s.buckets[bucketId := Bucket(bucketId, owner, OPEN, now, 0)])
    case CreateArtifactReq(bucketId, create) =>
      && s'.buckets == s.buckets && s'.objects == s.objects
      && exists a: Artifact :: FreshRow(s, s', a) && Requested(create, bucketId, a) && NamedFor(create, a.name)
    case PostReq(bucketId, name, post) =>
      exists id <- s.entries ::
        && id in s'.entries && Named(s.entries[id].row, bucketId, name)
        && PostDone(s.entries[id], s'.entries[id], s'.objects, post)
    case CloseArtifactReq(bucketId, name) =>
      exists id <- s.entries ::
        && id in s'.entries && Named(s.entries[id].row, bucketId, name)
        && CloseDone(s.entries[id], s'.entries[id], s'.objects)
    case CloseBucketReq(bucketId) =>
      && bucketId in s.buckets && Frozen(s', bucketId)
      && s'.buckets[bucketId] == s.buckets[bucketId].(state := CLOSED, dateClosed := now)
      && forall id <- s.entries :: s.entries[id].row.bucketId == bucketId ==>
           id in s'.entries && RowClosed(s.entries[id].row, s'.entries[id].row)
  }

  /** A post that nothing but a failing call can keep from being answered 200. */
  predicate Postable(e: Entry, post: Post) {
    match e.row.state
    case WAITING_FOR_UPLOAD => post.contentLength == Some(e.row.size) && 0 <= e.row.size <= |post.body|
    case APPENDING => post.chunk.Some? && Append(LogOf(e), post.chunk.value, post.env).1 == OK
    case _ => e.row.state !in {UPLOADING, UPLOADED, APPEND_COMPLETE}
  }

  /** And any such request. */
  predicate Acceptable(s: Store, req: Request) {
    match req
    case CreateBucketReq(bucketId, owner) => bucketId != "" && owner != "" && bucketId !in s.buckets
    case CreateArtifactReq(bucketId, create) =>
      && bucketId in s.buckets && s.buckets[bucketId].state == OPEN
      && Creatable(create) && !NameTaken(s, bucketId, create.name)
    case PostReq(bucketId, name, post) =>
      exists id <- s.entries :: Named(s.entries[id].row, bucketId, name) && Postable(s.entries[id], post)
    case CloseArtifactReq(bucketId, name) =>
      exists id <- s.entries :: Named(s.entries[id].row, bucketId, name) && Closable(s.entries[id])
    case CloseBucketReq(bucketId) =>
      bucketId in s.buckets && s.buckets[bucketId].state == OPEN && AllClosable(s, bucketId)
  }

  /** One request and its answer. `faulted` says whether calls failed. */
  ghost predicate Answered(s: Store, req: Request, now: int, status: int, s': Store, faulted: bool) {
    && KeepsFrozen(s, s')
    && (forall id <- s.entries :: !Concerns(req, s.entries[id].row) ==> id in s'.entries && s'.entries[id] == s.entries[id])
    && (status == OK ==> Served(s, req, now, s'))
    && (status != OK ==> faulted || !Acceptable(s, req))
  }

  method Serve(b: Backend, req: Request, now: int) returns (status: int)
    requires b.Valid()
    modifies b
    ensures b.Valid() && old(b.log) <= b.log && NoFewerFaults(old(b.dbFaults), old(b.s3Faults), b)
    ensures Answered(old(b.store), req, now, status, b.store, Faulted(old(b.dbFaults), old(b.s3Faults), b))
  {
    hide Inv, Legal, Replay, Answered;
    match req
    case CreateBucketReq(bucketId, owner) =>
      status := ServeCreateBucket(b, bucketId, owner, now);
    case CreateArtifactReq(bucketId, create) =>
      status := ServeCreateArtifact(b, bucketId, create, now);
    case PostReq(bucketId, name, post) =>
      status := ServePost(b, bucketId, name, post, now);
    case CloseArtifactReq(bucketId, name) =>
      status := ServeCloseArtifact(b, bucketId, name, now);
    case CloseBucketReq(bucketId) =>
      status := ServeCloseBucket(b, bucketId, now);
  }

  method ServeCreateBucket(b: Backend, bucketId: string, owner: string, now: int) returns (status: int)
    requires b.Valid()
    modifies b
    ensures b.Valid() && old(b.log) <= b.log && NoFewerFaults(old(b.dbFaults), old(b.s3Faults), b)
    ensures Answered(old(b.store), CreateBucketReq(bucketId, owner), now, status, b.store,
                     Faulted(old(b.dbFaults), old(b.s3Faults), b))
  {
    hide Inv, Legal, Replay, KeepsFrozen;
    status := CreateBucket(b, bucketId, owner, now);
  }

  method ServeCreateArtifact(b: Backend, bucketId: string, create: CreateReq, now: int) returns (status: int)
    requires b.Valid()
    modifies b
    ensures b.Valid() && old(b.log) <= b.log && NoFewerFaults(old(b.dbFaults), old(b.s3Faults), b)
    ensures Answered(old(b.store), CreateArtifactReq(bucketId, create), now, status, b.store,
                     Faulted(old(b.dbFaults), old(b.s3Faults), b))
  {
    hide Inv, Legal, Replay, KeepsFrozen, OnlyAdds, FreshRow, Requested, NamedFor, NameTaken, Creatable;
    KeepsFrozenRefl(b.store);
    ghost var s := b.store;
    IdsMatch(s);
    var dbError := b.Query();
    if dbError || bucketId !in b.store.buckets {
      return if dbError then SERVER_ERROR else NOT_FOUND;
    }
    var a, code := CreateArtifact(b, create, b.store.buckets[bucketId]);
    AddsKeepRows(s, b.store, bucketId);
    status := code;
  }

  method ServePost(b: Backend, bucketId: string, name: string, post: Post, now: int) returns (status: int)
    requires b.Valid()
    modifies b
    ensures b.Valid() && old(b.log) <= b.log && NoFewerFaults(old(b.dbFaults), old(b.s3Faults), b)
    ensures Answered(old(b.store), PostReq(bucketId, name, post), now, status, b.store,
                     Faulted(old(b.dbFaults), old(b.s3Faults), b))
  {
    hide Inv, Legal, Replay, KeepsFrozen, OnlyArtifact, S3Key, PutDone, AppendEntry, Append, Answered, Named, NameTaken;
    KeepsFrozenRefl(b.store);
    ghost var s := b.store;
    IdsMatch(s);
    NobodyAnswered(s, PostReq(bucketId, name, post), now);
    var artifact := BindArtifact(b, bucketId, name);
    if artifact.None? {
      return SERVER_ERROR;
    }
    ghost var id := artifact.value.id;
    NamedIsUnique(s, id, bucketId, name);
    status := PostArtifact(b, artifact.value, post);
    ArtifactWorkKeepsFrozen(s, b.store, id);
    OtherRowsKept(s, b.store, id);
    PostAnswered(s, b.store, id, PostReq(bucketId, name, post), now, status, Faulted(old(b.dbFaults), old(b.s3Faults), b));
  }

  /** A path that names no artifact. */
  lemma NobodyAnswered(s: Store, req: Request, now: int)
    requires req.PostReq? || req.CloseArtifactReq?
    ensures forall status: int, faulted: bool ::
              status != OK && (faulted || !NameTaken(s, req.bucketId, req.name)) ==>
                Answered(s, req, now, status, s, faulted)
  {
    hide Postable, Closable;
    KeepsFrozenRefl(s);
  }

  lemma PostAnswered(s: Store, s': Store, id: nat, req: Request, now: int, status: int, faulted: bool)
    requires req.PostReq? && KeepsFrozen(s, s') && id in s.entries && id in s'.entries
    requires forall i <- s.entries :: Named(s.entries[i].row, req.bucketId, req.name) <==> i == id
    requires forall i <- s.entries :: i != id ==> i in s'.entries && s'.entries[i] == s.entries[i]
    requires status == OK ==> PostDone(s.entries[id], s'.entries[id], s'.objects, req.post)
    requires status != OK && Postable(s.entries[id], req.post) ==> faulted
    ensures Answered(s, req, now, status, s', faulted)
  {
    hide KeepsFrozen, PostDone, Postable;
  }

  method ServeCloseArtifact(b: Backend, bucketId: string, name: string, now: int) returns (status: int)
    requires b.Valid()
    modifies b
    ensures b.Valid() && old(b.log) <= b.log && NoFewerFaults(old(b.dbFaults), old(b.s3Faults), b)
    ensures Answered(old(b.store), CloseArtifactReq(bucketId, name), now, status, b.store,
                     Faulted(old(b.dbFaults), old(b.s3Faults), b))
  {
    hide Inv, Legal, Replay, KeepsFrozen, OnlyArtifact, S3Key, CloseDone, Closable, Finished, Answered, Named, NameTaken;
    KeepsFrozenRefl(b.store);
    ghost var s := b.store;
    IdsMatch(s);
    NobodyAnswered(s, CloseArtifactReq(bucketId, name), now);
    var artifact := BindArtifact(b, bucketId, name);
    if artifact.None? {
      return SERVER_ERROR;
    }
    ghost var id := artifact.value.id;
    NamedIsUnique(s, id, bucketId, name);
    var failed := CloseArtifact(b, artifact.value);
    ArtifactWorkKeepsFrozen(s, b.store, id);
    OtherRowsKept(s, b.store, id);
    status := if failed then BAD_REQUEST else OK;
    CloseAnswered(s, b.store, id, CloseArtifactReq(bucketId, name), now, status, Faulted(old(b.dbFaults), old(b.s3Faults), b));
  }

  lemma CloseAnswered(s: Store, s': Store, id: nat, req: Request, now: int, status: int, faulted: bool)
    requires req.CloseArtifactReq? && KeepsFrozen(s, s') && id in s.entries && id in s'.entries
    requires forall i <- s.entries :: Named(s.entries[i].row, req.bucketId, req.name) <==> i == id
    requires forall i <- s.entries :: i != id ==> i in s'.entries && s'.entries[i] == s.entries[i]
    requires status == OK ==> CloseDone(s.entries[id], s'.entries[id], s'.objects)
    requires status != OK && Closable(s.entries[id]) ==> faulted
    ensures Answered(s, req, now, status, s', faulted)
  {
    hide KeepsFrozen, CloseDone, Closable;
  }

  method ServeCloseBucket(b: Backend, bucketId: string, now: int) returns (status: int)
    requires b.Valid()
    modifies b
    ensures b.Valid() && old(b.log) <= b.log && NoFewerFaults(old(b.dbFaults), old(b.s3Faults), b)
    ensures Answered(old(b.store), CloseBucketReq(bucketId), now, status, b.store,
                     Faulted(old(b.dbFaults), old(b.s3Faults), b))
  {
    hide Inv, Legal, Replay, KeepsFrozen, Frozen, AllClosable, RowClosed;
    KeepsFrozenRefl(b.store);
    BucketIds(b.store);
    var dbError := b.Query();
    if dbError || bucketId !in b.store.buckets {
      return if dbError then SERVER_ERROR else NOT_FOUND;
    }
    var failed := CloseBucket(b, b.store.buckets[bucketId], now);
    status := if failed then BAD_REQUEST else OK;
  }

  lemma BucketIds(s: Store)
    requires Inv(s)
    ensures forall bucketId <- s.buckets :: s.buckets[bucketId].id == bucketId
  {
    hide EntryInv;
  }

  lemma NamedIsUnique(s: Store, id: nat, bucketId: string, name: string)
    requires Inv(s) && id in s.entries && Named(s.entries[id].row, bucketId, name)
    ensures forall i <- s.entries :: Named(s.entries[i].row, bucketId, name) <==> i == id
  {
    hide RowsInv, ObjectsInv;
  }

  lemma ObjectsAreIntact(s: Store)
    requires Inv(s)
    ensures SlashFree(s) ==> ObjectsInv(s)
  {
  }

  /** A bucket that a close succeeded on, at any later moment. */
  lemma ClosedStaysFrozen(s: Store, req: Request, now: int, s1: Store, s2: Store, faulted: bool)
    requires req.CloseBucketReq? && Answered(s, req, now, OK, s1, faulted) && KeepsFrozen(s1, s2) && SlashFree(s2)
    ensures Frozen(s2, req.bucketId) && SamePart(s1, s2, req.bucketId)
  {
    hide SamePart, RowClosed;
  }

  lemma AnsweredLooser(s: Store, req: Request, now: int, status: int, s': Store, faulted: bool, faulted': bool)
    requires Answered(s, req, now, status, s', faulted) && (faulted ==> faulted')
    ensures Answered(s, req, now, status, s', faulted')
  {
    hide KeepsFrozen, Served, Acceptable;
  }

  /**
    Any sequence of requests, each answered as it should be in the state it meets. Once CloseBucket
    has reported success the bucket stays frozen: nothing that follows changes its row, any of its
    artifacts or chunk rows, or any of its S3 objects. And every uploaded artifact stays intact on
    S3. Both as long as no bucket id contains a slash. `stores` are the states between the requests.
   */
  method ServeAll(b: Backend, requests: seq<Request>, now: int) returns (statuses: seq<int>, ghost stores: seq<Store>)
    requires b.Valid()
    modifies b
    ensures b.Valid() && old(b.log) <= b.log && NoFewerFaults(old(b.dbFaults), old(b.s3Faults), b)
    ensures |statuses| == |requests| && |stores| == |requests| + 1
    ensures stores[0] == old(b.store) && stores[|requests|] == b.store
    ensures forall k :: 0 <= k < |requests| ==>
              Answered(stores[k], requests[k], now, statuses[k], stores[k + 1], Faulted(old(b.dbFaults), old(b.s3Faults), b))
    ensures forall bucketId <- old(b.store).buckets ::
              Frozen(old(b.store), bucketId) && SlashFree(b.store) ==>
                Frozen(b.store, bucketId) && SamePart(old(b.store), b.store, bucketId)
    ensures forall k :: 0 <= k < |requests| && requests[k].CloseBucketReq? && statuses[k] == OK && SlashFree(b.store) ==>
              Frozen(b.store, requests[k].bucketId) && SamePart(stores[k + 1], b.store, requests[k].bucketId)
    ensures SlashFree(b.store) ==> ObjectsInv(b.store)
  {
    hide Inv, Legal, Replay, Frozen, SamePart, S3Key, ObjectsInv, KeepsFrozen, Answered, SlashFree;
    statuses, stores := [], [b.store];
    KeepsFrozenRefl(b.store);
    for k := 0 to |requests|
      invariant b.Valid() && old(b.log) <= b.log && NoFewerFaults(old(b.dbFaults), old(b.s3Faults), b)
      invariant |statuses| == k && |stores| == k + 1 && stores[0] == old(b.store) && stores[k] == b.store
      invariant forall j :: 0 <= j < k ==>
                  Answered(stores[j], requests[j], now, statuses[j], stores[j + 1], Faulted(old(b.dbFaults), old(b.s3Faults), b))
      invariant forall j :: 0 <= j <= k ==> KeepsFrozen(stores[j], b.store)
    {
      ghost var s, faulted := b.store, Faulted(old(b.dbFaults), old(b.s3Faults), b);
      label before: var status := Serve(b, requests[k], now);
      ghost var faulted' := Faulted(old(b.dbFaults), old(b.s3Faults), b);
      forall j | 0 <= j < k ensures Answered(stores[j], requests[j], now, statuses[j], stores[j + 1], faulted') {
        AnsweredLooser(stores[j], requests[j], now, statuses[j], stores[j + 1], faulted, faulted');
      }
      AnsweredLooser(s, requests[k], now, status, b.store,
                     Faulted(old@before(b.dbFaults), old@before(b.s3Faults), b), faulted');
      AnswerKeepsFrozen(s, requests[k], now, status, b.store, faulted');
      forall j | 0 <= j <= k ensures KeepsFrozen(stores[j], b.store) {
        KeepsFrozenTrans(stores[j], s, b.store);
      }
      KeepsFrozenRefl(b.store);
      statuses, stores := statuses + [status], stores + [b.store];
    }
    ObjectsAreIntact(b.store);
    FrozenStays(stores[0], b.store);
    forall k | 0 <= k < |requests| && requests[k].CloseBucketReq? && statuses[k] == OK && SlashFree(b.store)
      ensures Frozen(b.store, requests[k].bucketId) && SamePart(stores[k + 1], b.store, requests[k].bucketId)
    {
      ClosedStaysFrozen(stores[k], requests[k], now, stores[k + 1], b.store, Faulted(old(b.dbFaults), old(b.s3Faults), b));
    }
  }

  lemma AnswerKeepsFrozen(s: Store, req: Request, now: int, status: int, s': Store, faulted: bool)
    requires Answered(s, req, now, status, s', faulted)
    ensures KeepsFrozen(s, s')
  {
    hide KeepsFrozen, Served, Acceptable;
  }

  lemma FrozenStays(s: Store, s': Store)
    requires KeepsFrozen(s, s')
    ensures forall bucketId <- s.buckets ::
              Frozen(s, bucketId) && SlashFree(s') ==> Frozen(s', bucketId) && SamePart(s, s', bucketId)
  {
    hide Frozen, SamePart;
  }
}
