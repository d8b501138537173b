/** Storing a reader's bytes on S3, with retries. */
module Upload {
  import opened Prelude
  import opened Model
  import opened Appends
  import opened Store
  import opened Backend
  import opened LogReader

  const MAX_UPLOAD_ATTEMPTS := 3

  /** An in-memory reader, for bodies of streamed uploads. */
  class BytesReader {
    const data: Bytes
    var pos: nat

    constructor (data: Bytes)
      ensures this.data == data && pos == 0
    {
      this.data, pos := data, 0;
    }

    method Read(p: array<Byte>) returns (n: nat, err: ReadError)
      modifies this`pos, p
      ensures n <= p.Length && pos == old(pos) + n
      ensures n == if old(pos) <= |data| then Min(p.Length, |data| - old(pos)) else 0
      ensures old(pos) <= |data| ==> p[..n] == data[old(pos)..pos]
      ensures err == if p.Length > 0 && old(pos) >= |data| then EOF else NoError
    {
      if pos >= |data| {
        return 0, if p.Length > 0 then EOF else NoError;
      }
      n := Min(p.Length, |data| - pos);
      forall i | 0 <= i < n {
        p[i] := data[pos + i];
      }
      pos := pos + n;
      err := NoError;
    }
  }

  /** The two kinds of reader an upload is given. */
  datatype ReadSeeker = FromLog(log: LogChunkReader) | FromMemory(mem: BytesReader) {
    function Repr(): set<object> {
      match this
      case FromLog(log) => {log}
      case FromMemory(mem) => {mem}
    }

    /** What the reader needs to be called at all. */
    ghost predicate Usable(b: Backend)
      reads Repr()
    {
      match this
      case FromLog(log) => log.db == b && 0 <= log.offset
      case FromMemory(mem) => true
    }

    /** What the reader needs to deliver its data. */
    ghost predicate Valid()
      reads Repr(), match this case FromLog(log) => {log.db} case FromMemory(_) => {}
    {
      match this
      case FromLog(log) => log.Valid()
      case FromMemory(mem) => mem.pos <= |mem.data|
    }

    ghost function Data(): Bytes {
      match this
      case FromLog(log) => log.content
      case FromMemory(mem) => mem.data
    }

    function Pos(): int
      reads Repr()
    {
      match this
      case FromLog(log) => log.offset
      case FromMemory(mem) => mem.pos
    }

    method Read(p: array<Byte>, ghost b: Backend) returns (n: nat, err: ReadError)
      requires b.Valid() && Usable(b)
      modifies Repr(), p, b`dbFaults
      ensures b.Valid() && Usable(b) && n <= p.Length
      ensures b.dbFaults == old(b.dbFaults) + if err == DbError then 1 else 0
      ensures old(Valid()) && err == EOF ==> Pos() >= |Data()|
      ensures p.Length > 0 && n == 0 ==> err != NoError
      ensures old(Valid()) ==> Valid() && err != Panic && Pos() == old(Pos()) + n && p[..n] == Data()[old(Pos())..Pos()]
    {
      match this
      case FromLog(log) =>
        n, err := log.Read(p);
      case FromMemory(mem) =>
        n, err := mem.Read(p);
    }

    /** Seek(0, SEEK_SET). */
    method Rewind(ghost b: Backend) returns (failed: bool)
      requires Usable(b)
      modifies Repr()
      ensures Usable(b)
      ensures !failed ==> Pos() == 0
      ensures old(Valid()) ==> !failed && Valid()
    {
      match this
      case FromLog(log) =>
        var _, f := log.Seek(0, SeekSet);
        failed := f;
      case FromMemory(mem) =>
        mem.pos := 0;
        failed := false;
    }
  }

  /** Only the object under the artifact's key may differ. */
  predicate OnlyObject(s: Store, s': Store, key: string) {
    s'.buckets == s.buckets && s'.entries == s.entries && s'.objects - {key} == s.objects - {key}
  }

  datatype PutResult = Stored | Refused | Panicked

  /**
    S3's PutReader. It may give up at any point, having consumed any part of the reader and left
    anything under the key; when it reports success it has stored exactly `length` bytes, from
    where the reader stood. If the reader delivers them it gives up only when S3 fails.
   */
  method PutReader(b: Backend, id: nat, r: ReadSeeker, length: int) returns (result: PutResult)
    requires b.Valid() && r.Usable(b)
    requires id in b.store.entries && b.store.entries[id].row.state == UPLOADING
    modifies b`store, b`log, b`dbFaults, b`putAttempts, b`s3Faults, r.Repr()
    ensures b.Valid() && old(b.log) <= b.log && r.Usable(b)
    ensures b.putAttempts == old(b.putAttempts) + 1
    ensures OnlyObject(old(b.store), b.store, old(b.store).entries[id].row.DefaultS3URL())
    ensures old(r.Valid()) ==> r.Valid() && result != Panicked
    ensures old(b.dbFaults) <= b.dbFaults && old(b.s3Faults) <= b.s3Faults
    ensures result != Stored && old(r.Valid()) && 0 <= length && old(r.Pos()) + length <= |r.Data()| ==>
              b.dbFaults + b.s3Faults > old(b.dbFaults) + old(b.s3Faults)
    ensures result == Stored && old(r.Valid()) && 0 <= length && old(r.Pos()) + length <= |r.Data()| ==>
              var key := old(b.store).entries[id].row.DefaultS3URL();
              key in b.store.objects && b.store.objects[key] == r.Data()[old(r.Pos())..old(r.Pos()) + length]
  {
    hide Inv, Legal, Replay, Enabled, Apply;
    b.putAttempts := b.putAttempts + 1;
    var got, failed, panicked := Gather(b, r, length);
    var refused := b.Get();
    if failed || refused {
      var late: bool := *;
      var junk: Bytes := *;
      PutTouchesOnly(b.store, id, junk);
      b.Leave(PutObject(id, junk), late);
      return if panicked then Panicked else Refused;
    }
    PutTouchesOnly(b.store, id, got);
    b.Leave(PutObject(id, got), true);
    return Stored;
  }

  lemma PutTouchesOnly(s: Store, id: nat, data: Bytes)
    requires id in s.entries && s.entries[id].row.state == UPLOADING
    ensures Enabled(s, PutObject(id, data))
    ensures var key := s.entries[id].row.DefaultS3URL();
            var s' := Apply(s, PutObject(id, data));
            OnlyObject(s, s', key) && key in s'.objects && s'.objects[key] == data
  {
  }

  /** Reading `length` bytes through buffers of any sizes, unless the connection breaks on the way. */
  method Gather(b: Backend, r: ReadSeeker, length: int) returns (data: Bytes, failed: bool, panicked: bool)
    requires b.Valid() && r.Usable(b)
    modifies b`dbFaults, b`s3Faults, r.Repr()
    ensures b.Valid() && r.Usable(b) && (panicked ==> failed)
    ensures old(b.dbFaults) <= b.dbFaults && old(b.s3Faults) <= b.s3Faults
    ensures old(r.Valid()) ==> r.Valid() && !panicked
    ensures old(r.Valid()) && failed && 0 <= length && old(r.Pos()) + length <= |r.Data()| ==>
              b.dbFaults + b.s3Faults > old(b.dbFaults) + old(b.s3Faults)
    ensures old(r.Valid()) && !failed && 0 <= length && old(r.Pos()) + length <= |r.Data()| ==>
              data == r.Data()[old(r.Pos())..old(r.Pos()) + length]
  {
    hide Inv, Legal, Replay;
    ghost var good, from := r.Valid(), r.Pos();
    var got: Bytes, broken := [], false;
    panicked := false;
    while |got| < length && !broken
      invariant b.Valid() && r.Usable(b)
      invariant old(b.dbFaults) <= b.dbFaults && old(b.s3Faults) <= b.s3Faults
      invariant panicked ==> broken
      invariant good ==> r.Valid() && !panicked && from + |got| == r.Pos() && got == r.Data()[from..r.Pos()]
      invariant good && broken ==>
                  b.dbFaults + b.s3Faults > old(b.dbFaults) + old(b.s3Faults) || r.Pos() >= |r.Data()|
      decreases length - |got|, !broken
    {
      var size: nat :| 0 < size;
      var p := new Byte[size];
      ghost var before := r.Pos();
      var n, err := r.Read(p, b);
      var interrupted := b.Get();
      if good {
        JoinSlices(r.Data(), from, before, r.Pos());
      }
      got := got + p[..n];
      panicked := err == Panic;
      broken := interrupted || err != NoError;
    }
    failed := panicked || |got| < length;
    data := *;  // without a proper length nothing is known of what is stored
    if 0 <= length <= |got| {
      data := got[..length];
    }
  }

  /**
    Up to three attempts, each from the start of the reader. Whatever the failed ones consumed or
    cached, the one that succeeds stores the whole content, and only it counts the bytes. It gives up
    after three attempts and not before, each of which some call must have failed.
   */
  method UploadArtifactToS3(b: Backend, id: nat, artifactSize: int, r: ReadSeeker) returns (failed: bool)
    requires b.Valid() && r.Usable(b)
    requires id in b.store.entries && b.store.entries[id].row.state == UPLOADING
    modifies b`store, b`log, b`dbFaults, b`putAttempts, b`bytesUploaded, b`s3Faults, r.Repr()
    ensures b.Valid() && old(b.log) <= b.log
    ensures OnlyObject(old(b.store), b.store, old(b.store).entries[id].row.DefaultS3URL())
    ensures old(b.putAttempts) <= b.putAttempts <= old(b.putAttempts) + MAX_UPLOAD_ATTEMPTS
    ensures old(b.dbFaults) <= b.dbFaults && old(b.s3Faults) <= b.s3Faults
    ensures failed && old(r.Valid()) ==> b.putAttempts == old(b.putAttempts) + MAX_UPLOAD_ATTEMPTS
    ensures failed && old(r.Valid()) && |r.Data()| == artifactSize ==>
              b.dbFaults + b.s3Faults >= old(b.dbFaults) + old(b.s3Faults) + MAX_UPLOAD_ATTEMPTS
    ensures b.bytesUploaded == old(b.bytesUploaded) + if failed then 0 else artifactSize
    ensures !failed && old(r.Valid()) && |r.Data()| == artifactSize ==>
              var key := old(b.store).entries[id].row.DefaultS3URL();
              key in b.store.objects && b.store.objects[key] == r.Data()
  {
    hide Inv, Legal, Replay, S3Key;
    var attempts := 0;
    while true
      invariant 0 <= attempts < MAX_UPLOAD_ATTEMPTS && b.putAttempts == old(b.putAttempts) + attempts
      invariant b.Valid() && old(b.log) <= b.log && r.Usable(b)
      invariant OnlyObject(old(b.store), b.store, old(b.store).entries[id].row.DefaultS3URL())
      invariant b.bytesUploaded == old(b.bytesUploaded)
      invariant old(r.Valid()) ==> r.Valid()
      invariant old(b.dbFaults) <= b.dbFaults && old(b.s3Faults) <= b.s3Faults
      invariant old(r.Valid()) && |r.Data()| == artifactSize ==>
                  b.dbFaults + b.s3Faults >= old(b.dbFaults) + old(b.s3Faults) + attempts
      decreases MAX_UPLOAD_ATTEMPTS - attempts
    {
      attempts := attempts + 1;
      var stuck := r.Rewind(b);
      if stuck {
        return true;
      }
      var result := PutReader(b, id, r, artifactSize);
      if result == Panicked {
        return true;
      }
      if result == Refused {
        if attempts < MAX_UPLOAD_ATTEMPTS {
          continue;
        }
        return true;
      }
      b.bytesUploaded := b.bytesUploaded + artifactSize;
      return false;
    }
  }
}
