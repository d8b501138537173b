/**
  The three stores of the system as one value, the changes a single database or S3 call can make to
  it, and what every sequence of such changes keeps. The handlers (module Handlers) make no other
  changes than the ones enabled here.
 */
module Store {
  import opened Prelude
  import opened Model
  import opened LogChunks

  const MAX_ARTIFACT_SIZE_BYTES := 200 * 1024 * 1024

  datatype Origin = Chunked | Streamed

  /**
    What the database holds for one artifact: its row and its chunk rows, in insertion order.
    `origin` and `content` are history no handler reads: how the artifact was created, and the
    bytes given to it so far (the chunks stored, or the body of its upload).
   */
  datatype Entry = Entry(row: Artifact, chunks: seq<Chunk>, origin: Origin, content: Bytes) {
    /** All its bytes arrived: no size update was left without its chunk. */
    predicate Whole() {
      |content| == row.size
    }

    /** The object under its key holds exactly its content. */
    predicate Stored(objects: map<string, Bytes>) {
      row.DefaultS3URL() in objects && objects[row.DefaultS3URL()] == content
    }
  }

  /** The bucket table, the artifact and chunk tables by artifact id, and the S3 objects by key. */
  datatype Store = Store(
    buckets: map<string, Bucket>,
    entries: map<nat, Entry>,
    objects: map<string, Bytes>)

  const EMPTY := Store(map[], map[], map[])

  /** One call on the database or on S3, or the arrival of an upload's body. */
  datatype Change =
    | Nothing                               // a call that failed without effect
    | NewBucket(bucket: Bucket)
    | SetBucket(bucket: Bucket)
    | NewArtifact(artifact: Artifact)
    | PutObject(id: nat, data: Bytes)       // under the artifact's own key
    | OnEntry(id: nat, update: EntryChange)

  datatype EntryChange =
    | SetArtifact(artifact: Artifact)
    | AddChunk(chunk: Chunk)
    | DropChunks
    | Receive(body: Bytes)

  function ApplyEntry(e: Entry, ch: EntryChange): Entry {
    match ch
    case SetArtifact(a) => e.(row := a)
    case AddChunk(c) => e.(chunks := e.chunks + [c], content := e.content + c.bytes)
    case DropChunks => e.(chunks := [])
    case Receive(body) => e.(content := body)
  }

  function Apply(s: Store, ch: Change): Store {
    match ch
    case Nothing => s
    case NewBucket(b) => s.(buckets := s.buckets[b.id := b])
    case SetBucket(b) => s.(buckets := s.buckets[b.id := b])
    case NewArtifact(a) =>
      s.(entries := s.entries[a.id := Entry(a, [], if a.state == APPENDING then Chunked else Streamed, [])])
    case PutObject(id, data) =>
      if id in s.entries then s.(objects := s.objects[s.entries[id].row.DefaultS3URL() := data]) else s
    case OnEntry(id, update) =>
      if id in s.entries then s.(entries := s.entries[id := ApplyEntry(s.entries[id], update)]) else s
  }

  /** The changes of an artifact row that some handler makes. */
  predicate Edge(e: Entry, a: Artifact, objects: map<string, Bytes>) {
    var r := e.row;
    || (r.state == APPENDING && r.size < a.size && a == r.(size := a.size))
    || (r.state == APPENDING && a == r.(state := APPEND_COMPLETE))
    || (r.state == APPEND_COMPLETE && r.size == 0 && a == r.(state := CLOSED_WITHOUT_DATA, s3url := ""))
    || (r.state == APPEND_COMPLETE && r.size != 0 && a == r.(state := UPLOADING))
    || (r.state == WAITING_FOR_UPLOAD && a == r.(state := UPLOADING))
    || (r.state == WAITING_FOR_UPLOAD && a == r.(state := CLOSED_WITHOUT_DATA))
    || (r.state == UPLOADING && e.origin.Streamed? && a == r.(state := ERROR))
    || (r.state == UPLOADING && a == r.(state := UPLOADED, s3url := r.DefaultS3URL())
        && (e.Whole() ==> e.Stored(objects)))
  }

  /** The row changes the handlers make, one by one. */
  lemma Edges(e: Entry, objects: map<string, Bytes>)
    ensures var r := e.row;
            && (r.state == APPENDING ==> Edge(e, r.(state := APPEND_COMPLETE), objects))
            && (r.state == APPENDING ==> forall n :: r.size < n ==> Edge(e, r.(size := n), objects))
            && (r.state == APPEND_COMPLETE && r.size == 0 ==>
                  Edge(e, r.(state := CLOSED_WITHOUT_DATA, s3url := ""), objects))
            && (r.state == APPEND_COMPLETE && r.size != 0 ==> Edge(e, r.(state := UPLOADING), objects))
            && (r.state == WAITING_FOR_UPLOAD ==> Edge(e, r.(state := UPLOADING), objects))
            && (r.state == WAITING_FOR_UPLOAD ==> Edge(e, r.(state := CLOSED_WITHOUT_DATA), objects))
            && (r.state == UPLOADING && e.origin.Streamed? ==> Edge(e, r.(state := ERROR), objects))
            && (r.state == UPLOADING && (e.Whole() ==> e.Stored(objects)) ==>
                  Edge(e, r.(state := UPLOADED, s3url := r.DefaultS3URL()), objects))
  {
  }

  ghost predicate EnabledEntry(e: Entry, ch: EntryChange, objects: map<string, Bytes>) {
    match ch
    case SetArtifact(a) => Edge(e, a, objects)
    case AddChunk(c) =>
      e.row.state == APPENDING && c.Sound() && Spaced(e.chunks, 0, c.offset) && c.End() == e.row.size
    case DropChunks => e.row.state == UPLOADED
    case Receive(body) => e.origin.Streamed? && e.row.state == UPLOADING && |body| == e.row.size
  }

  ghost predicate Enabled(s: Store, ch: Change) {
    match ch
    case Nothing => true
    case NewBucket(b) => b.id != "" && b.owner != "" && b.id !in s.buckets && b.state == OPEN
    case SetBucket(b) =>
      b.id in s.buckets && s.buckets[b.id].state == OPEN && b.state == CLOSED && b.owner == s.buckets[b.id].owner
    case NewArtifact(a) =>
      && a.id !in s.entries && a.bucketId in s.buckets && s.buckets[a.bucketId].state == OPEN
      && !NameTaken(s, a.bucketId, a.name)
      && a.s3url == ""
      && (|| (a.state == APPENDING && a.size == 0)
          || (a.state == WAITING_FOR_UPLOAD && a.size != 0 && a.size <= MAX_ARTIFACT_SIZE_BYTES))
    case PutObject(id, _) => id in s.entries && s.entries[id].row.state == UPLOADING
    case OnEntry(id, update) => id in s.entries && EnabledEntry(s.entries[id], update, s.objects)
  }

  /** The unique constraint on (bucketid, name). */
  predicate NameTaken(s: Store, bucketId: string, name: string) {
    exists i <- s.entries :: s.entries[i].row.bucketId == bucketId && s.entries[i].row.name == name
  }

  // ----- what every reachable store satisfies -----

  ghost predicate EntryInv(e: Entry) {
    var a := e.row;
    && (a.s3url == if a.state == UPLOADED then a.DefaultS3URL() else "")
    && match e.origin
       case Chunked =>
         && a.state in {APPENDING, APPEND_COMPLETE, UPLOADING, UPLOADED, CLOSED_WITHOUT_DATA}
         && Spaced(e.chunks, 0, a.size)
         && |e.content| <= a.size
         && (a.state != UPLOADED ==> Content(e.chunks) == e.content)
         && (a.state == CLOSED_WITHOUT_DATA ==> a.size == 0)
         && (a.state in {UPLOADING, UPLOADED} ==> a.size > 0)
       case Streamed =>
         && a.state in {WAITING_FOR_UPLOAD, UPLOADING, UPLOADED, ERROR, CLOSED_WITHOUT_DATA}
         && e.chunks == []
         && a.size != 0 && a.size <= MAX_ARTIFACT_SIZE_BYTES
         && (e.content == [] || |e.content| == a.size)
  }

  ghost predicate RowsInv(s: Store) {
    && (forall b <- s.buckets :: s.buckets[b].id == b && b != "" && s.buckets[b].owner != "")
    && (forall id <- s.entries ::
          && s.entries[id].row.id == id && s.entries[id].row.bucketId in s.buckets && EntryInv(s.entries[id]))
  }

  ghost predicate Unique(s: Store) {
    forall i <- s.entries, j <- s.entries ::
      s.entries[i].row.bucketId == s.entries[j].row.bucketId && s.entries[i].row.name == s.entries[j].row.name
      ==> i == j
  }

  /** No bucket that owns an artifact has a slash in its id. */
  predicate SlashFree(s: Store) {
    forall id <- s.entries :: '/' !in s.entries[id].row.bucketId
  }

  /** Every uploaded artifact is intact on S3. */
  predicate ObjectsInv(s: Store) {
    forall id <- s.entries ::
      s.entries[id].row.state == UPLOADED && s.entries[id].Whole() ==> s.entries[id].Stored(s.objects)
  }

  /** The S3 part rests on slash-free bucket ids: see `Model.S3KeyClash` for what happens otherwise. */
  ghost predicate Inv(s: Store) {
    RowsInv(s) && Unique(s) && (SlashFree(s) ==> ObjectsInv(s))
  }

  function Rank(state: ArtifactState): nat {
    match state
    case APPENDING => 0
    case WAITING_FOR_UPLOAD => 0
    case APPEND_COMPLETE => 1
    case UPLOADING => 2
    case _ => 3
  }

  predicate Terminal(state: ArtifactState) {
    state in {UPLOADED, ERROR, CLOSED_WITHOUT_DATA}
  }

  /** What time can do to an artifact. */
  ghost predicate Later(e: Entry, e': Entry) {
    var a, a' := e.row, e'.row;
    && e'.origin == e.origin
    && a'.id == a.id && a'.bucketId == a.bucketId && a'.name == a.name
    && (a'.state == a.state || Rank(a.state) < Rank(a'.state))
    && (Terminal(a.state) ==> a' == a && e'.content == e.content)
    && (e.origin.Streamed? ==> a'.size == a.size)
    && (e.origin.Chunked? ==> a.size <= a'.size && e.content <= e'.content)
    && (e.origin.Chunked? && a.state != APPENDING ==> a'.size == a.size && e'.content == e.content)
  }

  lemma EntryKept(e: Entry, ch: EntryChange, objects: map<string, Bytes>)
    requires EntryInv(e) && EnabledEntry(e, ch, objects)
    ensures EntryInv(ApplyEntry(e, ch))
    ensures Later(e, ApplyEntry(e, ch))
  {
    hide Content, Spaced, S3Key;
    match ch {
      case AddChunk(c) =>
        SpacedSnoc(e.chunks, 0, c.offset, c, e.row.size);
        SpacedBounds(e.chunks + [c], 0, e.row.size);
      case SetArtifact(a) =>
        if e.origin.Chunked? && e.row.size < a.size {
          SpacedWiden(e.chunks, 0, e.row.size, a.size);
        }
      case DropChunks =>
        if e.origin.Chunked? {
          NoChunksSpaced(e.row.size);
        }
      case Receive(body) =>
    }
    if e.origin.Chunked? {
      SpacedBounds(e.chunks, 0, e.row.size);
    }
  }

  lemma NoChunksSpaced(hi: int)
    ensures Spaced([], 0, hi) <==> 0 <= hi
  {
  }

  lemma RowsKept(s: Store, ch: Change)
    requires RowsInv(s) && Enabled(s, ch)
    ensures RowsInv(Apply(s, ch))
  {
    hide EntryInv, EnabledEntry, ApplyEntry;
    match ch {
      case OnEntry(id, update) =>
        EntryKept(s.entries[id], update, s.objects);
        assert Later(s.entries[id], ApplyEntry(s.entries[id], update));
      case NewArtifact(a) =>
        NewEntryOk(a);
      case _ =>
    }
  }

  lemma NewEntryOk(a: Artifact)
    requires a.s3url == ""
    requires || (a.state == APPENDING && a.size == 0)
             || (a.state == WAITING_FOR_UPLOAD && a.size != 0 && a.size <= MAX_ARTIFACT_SIZE_BYTES)
    ensures EntryInv(Entry(a, [], if a.state == APPENDING then Chunked else Streamed, []))
  {
  }

  lemma UniqueKept(s: Store, ch: Change)
    requires RowsInv(s) && Unique(s) && Enabled(s, ch)
    ensures Unique(Apply(s, ch))
  {
    hide EntryInv, EnabledEntry, ApplyEntry;
    match ch {
      case OnEntry(id, update) =>
        EntryKept(s.entries[id], update, s.objects);
        assert Later(s.entries[id], ApplyEntry(s.entries[id], update));
      case _ =>
    }
  }

  /** With unique (bucket, name) rows, two artifacts of buckets with slash-free ids share no key. */
  lemma KeysDiffer(s: Store, i: nat, j: nat)
    requires RowsInv(s) && Unique(s)
    requires i in s.entries && j in s.entries && i != j
    requires '/' !in s.entries[i].row.bucketId && '/' !in s.entries[j].row.bucketId
    ensures s.entries[i].row.DefaultS3URL() != s.entries[j].row.DefaultS3URL()
  {
    hide EntryInv;
    var a, b := s.entries[i].row, s.entries[j].row;
    if a.DefaultS3URL() == b.DefaultS3URL() {
      S3KeyInjective(a.bucketId, a.name, b.bucketId, b.name);
      assert false;
    }
  }

  lemma ObjectsKept(s: Store, ch: Change)
    requires RowsInv(s) && Unique(s) && Enabled(s, ch)
    requires SlashFree(s) && ObjectsInv(s)
    ensures ObjectsInv(Apply(s, ch))
  {
    hide RowsInv, EntryInv, Unique, S3Key, Content, Spaced;
    match ch {
      case PutObject(id', data) =>
        forall id <- s.entries | id != id'
          ensures s.entries[id].row.DefaultS3URL() != s.entries[id'].row.DefaultS3URL()
        {
          KeysDiffer(s, id, id');
        }
      case OnEntry(id, update) =>
        EntryStaysStored(s.entries[id], update, s.objects);
      case _ =>
    }
  }

  lemma EntryStaysStored(e: Entry, ch: EntryChange, objects: map<string, Bytes>)
    requires EnabledEntry(e, ch, objects)
    requires e.row.state == UPLOADED && e.Whole() ==> e.Stored(objects)
    ensures var e' := ApplyEntry(e, ch); e'.row.state == UPLOADED && e'.Whole() ==> e'.Stored(objects)
  {
    hide S3Key, Content, Spaced;
  }

  lemma ApplyKeepsInv(s: Store, ch: Change)
    requires Inv(s) && Enabled(s, ch)
    ensures Inv(Apply(s, ch))
  {
    hide RowsInv, Unique, ObjectsInv, SlashFree;
    RowsKept(s, ch);
    UniqueKept(s, ch);
    if SlashFree(Apply(s, ch)) {
      SlashFreeBefore(s, ch);
      ObjectsKept(s, ch);
    }
  }

  lemma SlashFreeBefore(s: Store, ch: Change)
    requires RowsInv(s) && Enabled(s, ch) && SlashFree(Apply(s, ch))
    ensures SlashFree(s)
  {
    hide EntryInv, Enabled, Apply, Later;
    forall id <- s.entries ensures '/' !in s.entries[id].row.bucketId {
      ApplyIsLater(s, ch, id);
      LaterStaysInBucket(s.entries[id], Apply(s, ch).entries[id]);
    }
  }

  lemma LaterStaysInBucket(e: Entry, e': Entry)
    requires Later(e, e')
    ensures e'.row.bucketId == e.row.bucketId && e'.row.name == e.row.name
  {
  }

  // ----- runs -----

  ghost predicate Legal(s: Store, log: seq<Change>)
    decreases |log|
  {
    log == [] || (Enabled(s, log[0]) && Legal(Apply(s, log[0]), log[1..]))
  }

  function Replay(s: Store, log: seq<Change>): Store
    decreases |log|
  {
    if log == [] then s else Replay(Apply(s, log[0]), log[1..])
  }

  lemma {:induction false} ReplayConcat(s: Store, a: seq<Change>, b: seq<Change>)
    ensures Legal(s, a + b) <==> Legal(s, a) && Legal(Replay(s, a), b)
    ensures Replay(s, a + b) == Replay(Replay(s, a), b)
    decreases |a|
  {
    hide Enabled, Apply;
    if a == [] {
      assert a + b == b;
    } else {
      assert (a + b)[0] == a[0] && (a + b)[1..] == a[1..] + b;
      ReplayConcat(Apply(s, a[0]), a[1..], b);
    }
  }

  lemma ReplaySnoc(s: Store, log: seq<Change>, ch: Change)
    ensures Legal(s, log + [ch]) <==> Legal(s, log) && Enabled(Replay(s, log), ch)
    ensures Replay(s, log + [ch]) == Apply(Replay(s, log), ch)
  {
    hide Enabled, Apply;
    ReplayConcat(s, log, [ch]);
    assert [ch][1..] == [];
  }

  lemma {:induction false} ReplayKeepsInv(s: Store, log: seq<Change>)
    requires Inv(s) && Legal(s, log)
    ensures Inv(Replay(s, log))
    decreases |log|
  {
    hide Inv, Enabled, Apply;
    if log != [] {
      ApplyKeepsInv(s, log[0]);
      ReplayKeepsInv(Apply(s, log[0]), log[1..]);
    }
  }

  /** The store after the first k calls of a run that starts with nothing. */
  function After(log: seq<Change>, k: nat): Store
    requires k <= |log|
  {
    Replay(EMPTY, log[..k])
  }

  lemma AfterIsReachable(log: seq<Change>, k: nat)
    requires Legal(EMPTY, log) && k <= |log|
    ensures Inv(After(log, k)) && RowsInv(After(log, k))
  {
    hide RowsInv, Unique, ObjectsInv, SlashFree, Legal, Replay;
    EmptyOk();
    assert log == log[..k] + log[k..];
    ReplayConcat(EMPTY, log[..k], log[k..]);
    ReplayKeepsInv(EMPTY, log[..k]);
  }

  lemma EmptyOk()
    ensures Inv(EMPTY)
  {
  }

  lemma AfterStep(log: seq<Change>, k: nat)
    requires Legal(EMPTY, log) && k < |log|
    ensures Enabled(After(log, k), log[k]) && After(log, k + 1) == Apply(After(log, k), log[k])
  {
    hide Enabled, Apply, Legal, Replay;
    assert log == log[..k + 1] + log[k + 1..];
    ReplayConcat(EMPTY, log[..k + 1], log[k + 1..]);
    assert log[..k + 1] == log[..k] + [log[k]];
    ReplaySnoc(EMPTY, log[..k], log[k]);
  }

  // ----- no data is lost, nothing is clobbered -----

  /**
    At every point of every run, for every artifact whose bytes all arrived: a chunked artifact that
    is not uploaded still has rows that tile [0, Size) and hold its content; an uploaded artifact
    is on S3 in its entirety, under its recorded URL. In particular rows only ever disappear after
    the whole object and the row that points to it are in place.
   */
  lemma NoDataLoss(log: seq<Change>, k: nat, id: nat)
    requires Legal(EMPTY, log) && k <= |log|
    requires id in After(log, k).entries && After(log, k).entries[id].Whole()
    ensures var s := After(log, k);
            var e := s.entries[id];
            && (e.origin.Chunked? && e.row.state != UPLOADED ==>
                  Tiles(e.chunks, 0, e.row.size) && Content(e.chunks) == e.content)
            && (e.row.state == UPLOADED && SlashFree(s) ==>
                  e.row.s3url in s.objects && s.objects[e.row.s3url] == e.content)
  {
    hide Content, Spaced, Tiles, Replay;
    AfterIsReachable(log, k);
    var e := After(log, k).entries[id];
    assert EntryInv(e);
    TilesIffFull(e.chunks, 0, e.row.size);
  }

  lemma LegalCons(s: Store, ch: Change, rest: seq<Change>)
    ensures Legal(s, [ch] + rest) <==> Enabled(s, ch) && Legal(Apply(s, ch), rest)
    ensures Replay(s, [ch] + rest) == Replay(Apply(s, ch), rest)
  {
    hide Enabled, Apply;
    assert ([ch] + rest)[1..] == rest;
  }

  /** The calls of a streamed upload that goes through. */
  function UploadRun(a: Artifact, body: Bytes): seq<Change> {
    [OnEntry(a.id, SetArtifact(a.(state := UPLOADING)))] + ([OnEntry(a.id, Receive(body))] + ([PutObject(a.id, body)]
    + ([OnEntry(a.id, SetArtifact(a.(state := UPLOADED, s3url := a.DefaultS3URL())))] + [])))
  }

  function Uploaded(s: Store, a: Artifact, body: Bytes): Store {
    Store(s.buckets,
          s.entries[a.id := Entry(a.(state := UPLOADED, s3url := a.DefaultS3URL()), [], Streamed, body)],
          s.objects[a.DefaultS3URL() := body])
  }

  /** An artifact waiting for its upload can always be uploaded. */
  lemma UploadRunIsLegal(s: Store, a: Artifact, body: Bytes)
    requires a.id in s.entries && s.entries[a.id] == Entry(a, [], Streamed, [])
    requires a.state == WAITING_FOR_UPLOAD && |body| == a.size
    ensures Legal(s, UploadRun(a, body)) && Replay(s, UploadRun(a, body)) == Uploaded(s, a, body)
  {
    hide Legal, Replay, S3Key, Edge;
    var up := OnEntry(a.id, SetArtifact(a.(state := UPLOADING)));
    var receive, put := OnEntry(a.id, Receive(body)), PutObject(a.id, body);
    var done := OnEntry(a.id, SetArtifact(a.(state := UPLOADED, s3url := a.DefaultS3URL())));
    var s1 := Apply(s, up);
    var s2 := Apply(s1, receive);
    var s3 := Apply(s2, put);
    Edges(s.entries[a.id], s.objects);
    Edges(s3.entries[a.id], s3.objects);
    LegalCons(s, up, [receive] + ([put] + ([done] + [])));
    LegalCons(s1, receive, [put] + ([done] + []));
    LegalCons(s2, put, [done] + []);
    LegalCons(s3, done, []);
    NoCalls(Apply(s3, done));
    assert Apply(s3, done) == Uploaded(s, a, body);
  }

  lemma NoCalls(s: Store)
    ensures Legal(s, []) && Replay(s, []) == s
  {
  }

  const CLOBBERED := Artifact(0, "a", "b/x", "", 1, WAITING_FOR_UPLOAD, 30, "b/x")
  const CLOBBERING := Artifact(1, "a/b", "x", "", 1, WAITING_FOR_UPLOAD, 30, "x")

  /** Two buckets, "a" and "a/b", and an artifact in each. */
  function SlashSetup(): seq<Change> {
    [NewBucket(Bucket("a", "o", OPEN, 0, 0))] + ([NewBucket(Bucket("a/b", "o", OPEN, 0, 0))]
    + ([NewArtifact(CLOBBERED)] + ([NewArtifact(CLOBBERING)] + [])))
  }

  function SlashStore(): Store {
    Store(map["a" := Bucket("a", "o", OPEN, 0, 0), "a/b" := Bucket("a/b", "o", OPEN, 0, 0)],
          map[0 := Entry(CLOBBERED, [], Streamed, []), 1 := Entry(CLOBBERING, [], Streamed, [])], map[])
  }

  lemma SlashSetupIsLegal()
    ensures Legal(EMPTY, SlashSetup()) && Replay(EMPTY, SlashSetup()) == SlashStore()
  {
    hide Legal, Replay;
    var c1, c2 := NewBucket(Bucket("a", "o", OPEN, 0, 0)), NewBucket(Bucket("a/b", "o", OPEN, 0, 0));
    var c3, c4 := NewArtifact(CLOBBERED), NewArtifact(CLOBBERING);
    var s1 := Apply(EMPTY, c1);
    var s2 := Apply(s1, c2);
    var s3 := Apply(s2, c3);
    assert "a" != "a/b" by {
      assert |"a"| == 1 && |"a/b"| == 3;
    }
    LegalCons(EMPTY, c1, [c2] + ([c3] + ([c4] + [])));
    LegalCons(s1, c2, [c3] + ([c4] + []));
    LegalCons(s2, c3, [c4] + []);
    LegalCons(s3, c4, []);
    NoCalls(Apply(s3, c4));
    assert Apply(s3, c4) == SlashStore();
  }

  /**
    Without the condition on bucket ids the S3 half of the invariant is false: a legal run in which
    the upload to "x" in bucket "a/b" replaces the object of "b/x" in bucket "a".
   */
  lemma SlashesClobber() returns (log: seq<Change>)
    ensures Legal(EMPTY, log)
    ensures var s := Replay(EMPTY, log);
            0 in s.entries && s.entries[0].row.state == UPLOADED && s.entries[0].Whole() && !s.entries[0].Stored(s.objects)
  {
    hide Legal, Replay;
    var first, second := UploadRun(CLOBBERED, [1]), UploadRun(CLOBBERING, [2]);
    log := (SlashSetup() + first) + second;
    SlashSetupIsLegal();
    ReplayConcat(EMPTY, SlashSetup(), first);
    ReplayConcat(EMPTY, SlashSetup() + first, second);
    UploadRunIsLegal(SlashStore(), CLOBBERED, [1]);
    UploadRunIsLegal(Uploaded(SlashStore(), CLOBBERED, [1]), CLOBBERING, [2]);
    assert CLOBBERED.DefaultS3URL() == "/a/b/x" == CLOBBERING.DefaultS3URL();
    assert [1 as Byte] != [2];
  }

  const STUCK := Artifact(0, "b", "n", "", 0, APPENDING, 30, "n")

  /**
    A legal run that leaves a whole, non-empty artifact APPEND_COMPLETE: one chunk is appended, a
    close gets as far as its first write, and the next one fails.
   */
  lemma CloseCanGetStuck() returns (log: seq<Change>)
    ensures Legal(EMPTY, log)
    ensures var s := Replay(EMPTY, log);
            && 0 in s.entries && s.entries[0].origin.Chunked? && s.entries[0].row.state == APPEND_COMPLETE
            && s.entries[0].Whole() && s.entries[0].content == [7] && s.objects == map[]
  {
    hide Legal, Replay;
    var c1, c2 := NewBucket(Bucket("b", "o", OPEN, 0, 0)), NewArtifact(STUCK);
    var c3 := OnEntry(0, SetArtifact(STUCK.(size := 1)));
    var c4 := OnEntry(0, AddChunk(Chunk(0, 1, [7])));
    var c5 := OnEntry(0, SetArtifact(STUCK.(size := 1, state := APPEND_COMPLETE)));
    log := [c1] + ([c2] + ([c3] + ([c4] + ([c5] + ([Nothing] + [])))));
    var s1 := Apply(EMPTY, c1);
    var s2 := Apply(s1, c2);
    var s3 := Apply(s2, c3);
    var s4 := Apply(s3, c4);
    var s5 := Apply(s4, c5);
    LegalCons(EMPTY, c1, [c2] + ([c3] + ([c4] + ([c5] + ([Nothing] + [])))));
    LegalCons(s1, c2, [c3] + ([c4] + ([c5] + ([Nothing] + []))));
    LegalCons(s2, c3, [c4] + ([c5] + ([Nothing] + [])));
    LegalCons(s3, c4, [c5] + ([Nothing] + []));
    LegalCons(s4, c5, [Nothing] + []);
    LegalCons(s5, Nothing, []);
    NoCalls(s5);
    NoChunksSpaced(0);
    assert s5.entries[0] == Entry(STUCK.(size := 1, state := APPEND_COMPLETE), [Chunk(0, 1, [7])], Chunked, [7]);
  }

  // ----- the life cycle only moves forward -----

  lemma ApplyIsLater(s: Store, ch: Change, id: nat)
    requires RowsInv(s) && Enabled(s, ch) && id in s.entries
    ensures id in Apply(s, ch).entries && Later(s.entries[id], Apply(s, ch).entries[id])
  {
    hide EntryInv, EnabledEntry, ApplyEntry;
    if ch.OnEntry? && ch.id == id {
      EntryKept(s.entries[id], ch.update, s.objects);
    }
  }

  lemma LaterIsTransitive(e1: Entry, e2: Entry, e3: Entry)
    requires Later(e1, e2) && Later(e2, e3)
    ensures Later(e1, e3)
  {
  }

  /**
    Along every run, whatever fails: the state of an artifact climbs strictly when it changes;
    UPLOADED, ERROR and CLOSED_WITHOUT_DATA rows are never touched again; a streamed size never
    changes; a chunked size and content only grow, and not at all once appending has ended.
   */
  lemma {:induction false} LifeCycleMovesForward(log: seq<Change>, i: nat, j: nat, id: nat)
    requires Legal(EMPTY, log) && i <= j <= |log|
    requires id in After(log, i).entries
    ensures id in After(log, j).entries && Later(After(log, i).entries[id], After(log, j).entries[id])
    decreases j
  {
    if i < j {
      hide *;
      LifeCycleMovesForward(log, i, j - 1, id);
      AfterIsReachable(log, j - 1);
      AfterStep(log, j - 1);
      ApplyIsLater(After(log, j - 1), log[j - 1], id);
      LaterIsTransitive(After(log, i).entries[id], After(log, j - 1).entries[id], After(log, j).entries[id]);
    }
  }

  /** Chunked artifacts and streamed ones each keep to their own states. */
  lemma StatesByOrigin(log: seq<Change>, k: nat, id: nat)
    requires Legal(EMPTY, log) && k <= |log| && id in After(log, k).entries
    ensures var e := After(log, k).entries[id];
            && (e.origin.Chunked? ==> e.row.state !in {WAITING_FOR_UPLOAD, ERROR} && e.row.size >= 0)
            && (e.origin.Streamed? ==> e.row.state !in {APPENDING, APPEND_COMPLETE})
            && e.row.state !in {UNKNOWN_ARTIFACT_STATE, DEADLINE_EXCEEDED}
  {
    hide Content, Spaced, Replay;
    AfterIsReachable(log, k);
    assert EntryInv(After(log, k).entries[id]);
  }

  /**
    The ETag is sound: two moments at which a chunked artifact is readable from its rows, with all
    its bytes, and has the same Size serve the same bytes.
   */
  lemma ETagSound(log: seq<Change>, i: nat, j: nat, id: nat)
    requires Legal(EMPTY, log) && i <= |log| && j <= |log|
    requires id in After(log, i).entries && After(log, i).entries[id].Whole()
    requires id in After(log, j).entries && After(log, j).entries[id].Whole()
    requires After(log, i).entries[id].row.state in {APPENDING, APPEND_COMPLETE}
    requires After(log, j).entries[id].row.state in {APPENDING, APPEND_COMPLETE}
    requires After(log, i).entries[id].row.size == After(log, j).entries[id].row.size
    ensures Content(After(log, i).entries[id].chunks) == Content(After(log, j).entries[id].chunks)
  {
    hide After, Content, Tiles;
    StatesByOrigin(log, i, id);
    StatesByOrigin(log, j, id);
    NoDataLoss(log, i, id);
    NoDataLoss(log, j, id);
    if i <= j {
      LifeCycleMovesForward(log, i, j, id);
    } else {
      LifeCycleMovesForward(log, j, i, id);
    }
  }

  // ----- one artifact at a time -----

  /** Everything but artifact `id` and the object under its key is as before. */
  ghost predicate OnlyArtifact(s: Store, s': Store, id: nat) {
    && id in s.entries
    && s'.buckets == s.buckets
    && s'.entries.Keys == s.entries.Keys
    && s'.entries - {id} == s.entries - {id}
    && Later(s.entries[id], s'.entries[id])
    && var key := s.entries[id].row.DefaultS3URL();
       s'.objects - {key} == s.objects - {key}
  }

  predicate OfBucket(s: Store, id: nat, b: string) {
    id in s.entries && s.entries[id].row.bucketId == b
  }

  predicate Quiescent(state: ArtifactState) {
    state in {UPLOADED, APPEND_COMPLETE, CLOSED_WITHOUT_DATA}
  }

  /** The bucket is closed and none of its artifacts can move any more. */
  predicate Frozen(s: Store, b: string) {
    && b in s.buckets && s.buckets[b].state == CLOSED
    && forall id <- s.entries :: s.entries[id].row.bucketId == b ==> Quiescent(s.entries[id].row.state)
  }

  /**
    The two stores agree on the bucket: its row, its artifacts with their chunk rows, the objects
    under its artifacts' keys and, for an id without a slash, under every key it could ever use.
   */
  ghost predicate SamePart(s: Store, s': Store, b: string) {
    && b in s.buckets && b in s'.buckets && s'.buckets[b] == s.buckets[b]
    && (forall id: nat :: OfBucket(s', id, b) <==> OfBucket(s, id, b))
    && (forall id: nat :: OfBucket(s, id, b) ==> s'.entries[id] == s.entries[id])
    && (forall id: nat :: OfBucket(s, id, b) ==> SameObject(s, s', s.entries[id].row.DefaultS3URL()))
    && ('/' !in b ==> forall name :: SameObject(s, s', S3Key(b, name)))
  }

  predicate SameObject(s: Store, s': Store, key: string) {
    && (key in s'.objects <==> key in s.objects)
    && (key in s.objects ==> s'.objects[key] == s.objects[key])
  }

  lemma OtherArtifactsObjects(s: Store, s': Store, id: nat, b: string)
    requires OnlyArtifact(s, s', id)
    requires '/' !in b && '/' !in s.entries[id].row.bucketId && s.entries[id].row.bucketId != b
    ensures forall name :: SameObject(s, s', S3Key(b, name))
  {
    hide S3Key, Later;
    var a := s.entries[id].row;
    var key := a.DefaultS3URL();
    forall name ensures SameObject(s, s', S3Key(b, name)) {
      var k := S3Key(b, name);
      assert k != key by {
        if k == key {
          S3KeyInjective(b, name, a.bucketId, a.name);
        }
      }
      assert k in s'.objects <==> k in s'.objects - {key};
      assert k in s.objects <==> k in s.objects - {key};
      if k in s.objects {
        assert (s'.objects - {key})[k] == (s.objects - {key})[k];
      }
    }
  }

  lemma OtherEntriesSame(s: Store, s': Store, id: nat)
    requires OnlyArtifact(s, s', id)
    ensures forall i <- s.entries :: i != id ==> s'.entries[i] == s.entries[i]
  {
    hide Later, S3Key;
    forall i <- s.entries | i != id ensures s'.entries[i] == s.entries[i] {
      assert i in s.entries - {id} && (s'.entries - {id})[i] == (s.entries - {id})[i];
    }
  }

  /** Work on an artifact elsewhere leaves a frozen bucket as it is. */
  lemma OtherArtifactKeepsFrozen(s: Store, s': Store, id: nat, b: string)
    requires RowsInv(s) && SlashFree(s) && Frozen(s, b)
    requires OnlyArtifact(s, s', id) && s.entries[id].row.bucketId != b
    ensures Frozen(s', b) && SamePart(s, s', b)
  {
    hide EntryInv, S3Key;
    if '/' !in b {
      OtherArtifactsObjects(s, s', id, b);
    }
    OtherEntriesSame(s, s', id);
  }
}
