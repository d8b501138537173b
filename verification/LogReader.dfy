/**
  The seekable reader over an artifact's chunk rows, proved to behave as a byte array with a
  position, whatever it has cached and however far it reads ahead.
 */
module LogReader {
  import opened Prelude
  import opened Model
  import opened LogChunks
  import opened Store
  import opened Backend

  const READAHEAD_BYTES := 1024 * 1024

  /** Errors of Read: none, io.EOF, a database error, or a slice out of range. */
  datatype ReadError = NoError | EOF | DbError | Panic

  datatype Whence = SeekSet | SeekCur | SeekEnd

  // ----- the specification: a byte array with a position -----

  /** Bytes, new position and error of a read of up to `len` bytes when the database answers. */
  function ReadSpec(content: Bytes, pos: int, len: nat): (Bytes, int, ReadError)
    requires 0 <= pos <= |content|
  {
    var n := Min(len, |content| - pos);
    (content[pos..pos + n], pos + n, if len > 0 && pos + n == |content| then EOF else NoError)
  }

  function Target(pos: int, size: int, offset: int, whence: Whence): int {
    match whence case SeekSet => offset case SeekCur => pos + offset case SeekEnd => size + offset
  }

  /** New position of a seek; an unreachable target is an error and moves nothing. */
  function SeekSpec(content: Bytes, pos: int, offset: int, whence: Whence): (int, bool)
    requires 0 <= pos <= |content|
  {
    var target := Target(pos, |content|, offset, whence);
    if 0 <= target <= |content| then (target, false) else (pos, true)
  }

  /** `chunks` is a contiguous run of rows holding content[a..b). */
  ghost predicate IsRun(chunks: seq<Chunk>, content: Bytes, a: int, b: int) {
    0 <= a <= b <= |content| && Tiles(chunks, a, b) && Content(chunks) == content[a..b]
  }

  /** Some contiguous run of rows that holds the wanted bytes, with any rows of the snapshot around them. */
  ghost predicate Covers(chunks: seq<Chunk>, content: Bytes, from: int, want: int) {
    exists a, b :: IsRun(chunks, content, a, b) && a <= from && from + want <= b
  }

  /** `cache` is what comes right after `offset`. */
  predicate Agrees(content: Bytes, offset: int, cache: Bytes) {
    0 <= offset && offset + |cache| <= |content| && cache == content[offset..offset + |cache|]
  }

  /**
    Where copying stands once the rows before content position `here` are done: as long as bytes are
    wanted nothing is cached and the reader is at `here`, or still ahead of it; afterwards it is at
    its target and everything up to `here` is cached.
   */
  ghost predicate Copying(content: Bytes, from: int, want: int, left: int, cache: Bytes, here: int) {
    && 0 <= from && 0 <= left <= want
    && (if left > 0 then cache == [] && from + (want - left) == Max(from, here)
        else from + want <= here <= |content| && cache == content[from + want..here])
  }

  /** The row of a run that comes next. */
  ghost predicate NextRow(content: Bytes, from: int, want: int, left: int, cache: Bytes, c: Chunk) {
    && from + want <= |content| && Copying(content, from, want, left, cache, c.offset)
    && c.Sound() && c.End() <= |content| && c.bytes == content[c.offset..c.End()]
  }

  lemma JustHere(content: Bytes, from: int, want: int, left: int, cache: Bytes, c: Chunk)
    requires NextRow(content, from, want, left, cache, c)
    ensures var o := from + want - left; 0 <= o <= |content| && content[o..o] == []
  {
  }

  lemma RowCached(content: Bytes, from: int, want: int, cache: Bytes, c: Chunk)
    requires NextRow(content, from, want, 0, cache, c)
    ensures !(c.offset < from + want)
    ensures Copying(content, from, want, 0, cache + c.bytes, c.End())
  {
    JoinSlices(content, from + want, c.offset, c.End());
  }

  lemma RowSkipped(content: Bytes, from: int, want: int, left: int, cache: Bytes, c: Chunk)
    requires NextRow(content, from, want, left, cache, c) && left > 0
    ensures c.offset <= from + want - left
    ensures c.End() <= from + want - left ==> Copying(content, from, want, left, cache, c.End())
  {
  }

  lemma RowTaken(content: Bytes, from: int, want: int, left: int, cache: Bytes, c: Chunk, start: int, take: int)
    requires NextRow(content, from, want, left, cache, c) && left > 0
    requires start == from + want - left - c.offset && take == Min(left, c.size - start) && c.size > start
    ensures 0 <= start && 0 < take && c.bytes[start..start + take] == content[c.offset + start..c.offset + start + take]
    ensures Copying(content, from, want, left - take,
                    if take < c.size - start then cache + c.bytes[start + take..] else cache, c.End())
  {
    SliceOfSlice(content, c.offset, c.End(), start, start + take);
    SliceOfSlice(content, c.offset, c.End(), start + take, c.size);
    assert c.bytes[start + take..] == c.bytes[start + take..c.size];
  }

  lemma JoinSlices(content: Bytes, i: int, j: int, k: int)
    requires 0 <= i <= j <= k <= |content|
    ensures content[i..j] + content[j..k] == content[i..k]
  {
  }

  /** `was` with `got` written over it from `start` on. */
  ghost function Spliced(was: Bytes, start: nat, got: Bytes): Bytes
    requires start + |got| <= |was|
  {
    was[..start] + got + was[start + |got|..]
  }

  lemma SpliceNone(was: Bytes, start: nat)
    requires start <= |was|
    ensures Spliced(was, start, []) == was
  {
  }

  lemma SpliceMore(was: Bytes, start: nat, got: Bytes, src: Bytes)
    requires start + |got| + |src| <= |was|
    ensures Spliced(Spliced(was, start, got), start + |got|, src) == Spliced(was, start, got + src)
  {
  }

  lemma SpliceSides(was: Bytes, start: nat, got: Bytes)
    requires start + |got| <= |was|
    ensures |Spliced(was, start, got)| == |was|
    ensures Spliced(was, start, got)[..start] == was[..start]
    ensures Spliced(was, start, got)[start..start + |got|] == got
    ensures Spliced(was, start, got)[start + |got|..] == was[start + |got|..]
  {
  }

  lemma SliceOfSlice(content: Bytes, i: int, j: int, k: int, l: int)
    requires 0 <= i <= j <= |content| && 0 <= k <= l <= j - i
    ensures content[i..j][k..l] == content[i + k..i + l]
  {
    var s, t := content[i..j][k..l], content[i + k..i + l];
    forall x | 0 <= x < |t| ensures s[x] == t[x] {
      assert s[x] == content[i..j][k + x];
    }
    assert s == t;
  }

  class LogChunkReader {
    const artifact: Artifact
    const db: Backend
    var offset: int
    var readAhead: int
    var unread: Bytes
    ghost const content: Bytes  // the bytes of the artifact row this reader was made for

    ghost predicate Valid()
      reads this, db
    {
      && |content| == artifact.size
      && Agrees(content, offset, unread)
      && Snapshot(RowsOf(db.store, artifact.id), content)
    }

    constructor (artifact: Artifact, db: Backend, ghost content: Bytes)
      ensures this.artifact == artifact && this.db == db && this.content == content
      ensures offset == 0 && unread == [] && readAhead == 0
      ensures |content| == artifact.size && Snapshot(RowsOf(db.store, artifact.id), content) ==> Valid()
    {
      this.artifact, this.db, this.content := artifact, db, content;
      offset, readAhead, unread := 0, 0, [];
    }

    constructor WithReadahead(artifact: Artifact, db: Backend, ghost content: Bytes)
      ensures this.artifact == artifact && this.db == db && this.content == content
      ensures offset == 0 && unread == [] && readAhead == Min(artifact.size, READAHEAD_BYTES)
      ensures |content| == artifact.size && Snapshot(RowsOf(db.store, artifact.id), content) ==> Valid()
    {
      this.artifact, this.db, this.content := artifact, db, content;
      offset, readAhead, unread := 0, Min(artifact.size, READAHEAD_BYTES), [];
    }

    /**
      The refinement: with an answering database a read delivers, counts, advances and reports
      end-of-file exactly as the byte array does. A database error delivers what was cached. Over
      rows that do not form a snapshot (`Valid` fails) only the bounds are promised. A read that goes
      to the database leaves everything `readAhead` asks for in the cache.
     */
    method Read(p: array<Byte>) returns (n: nat, err: ReadError)
      requires db.Valid()
      requires 0 <= offset
      modifies this`offset, this`unread, p, db`dbFaults
      ensures n <= p.Length && 0 <= offset && (err != Panic ==> p[n..] == old(p[n..]))
      ensures p.Length > 0 && n == 0 ==> err != NoError
      ensures db.dbFaults == old(db.dbFaults) + if err == DbError then 1 else 0
      ensures err == DbError ==> n == Min(|old(unread)|, p.Length)
      ensures old(Valid()) ==> Valid() && err != Panic && offset == old(offset) + n && p[..n] == content[old(offset)..offset]
      ensures old(Valid()) && err != DbError ==>
                (p[..n], offset, err) == ReadSpec(content, old(offset), p.Length)
      ensures old(Valid()) && err != DbError && |old(unread)| < p.Length ==>
                offset + |unread| >= Min(artifact.size, old(offset) + |old(unread)| + readAhead)
    {
      hide Snapshot, Select, Tiles, Content, Inv, Legal, Replay, ReadSpec, IsRun, RowsOf, Spliced, IdsBelow;
      ghost var good := Valid();
      if good {
        ReadSpecIs(content, offset, p.Length);
      }
      if p.Length == 0 {
        return 0, NoError;
      }
      var offsetInSlice := Drain(p, good);
      if offsetInSlice == p.Length {
        return p.Length, if offset == artifact.size then EOF else NoError;
      }
      if offset < 0 || offset >= artifact.size {
        return offsetInSlice, EOF;
      }
      var bytesToRead := Min(artifact.size - offset, p.Length - offsetInSlice);
      var failed, panicked := ReadRows(p, offsetInSlice, bytesToRead, good);
      if failed {
        return offsetInSlice, DbError;
      }
      if panicked {
        return offsetInSlice, Panic;
      }
      n := offsetInSlice + bytesToRead;
      err := if offset == artifact.size then EOF else NoError;
    }

    /** The part of Read that goes to the database. */
    method ReadRows(p: array<Byte>, start: nat, want: nat, ghost good: bool) returns (failed: bool, panicked: bool)
      requires db.Valid() && 0 <= offset && 0 < want && start + want <= p.Length
      requires good ==> Valid() && unread == [] && offset + want <= |content|
      requires good ==> start <= offset && p[..start] == content[offset - start..offset]
      modifies this`offset, this`unread, p, db`dbFaults
      ensures db.dbFaults == old(db.dbFaults) + if failed then 1 else 0
      ensures 0 <= offset
      ensures failed ==> offset == old(offset) && unread == old(unread) && p[..] == old(p[..])
      ensures !panicked ==> p[start + want..] == old(p[start + want..])
      ensures good ==> Valid() && !panicked
      ensures good && !failed ==>
                && offset == old(offset) + want && p[..start + want] == content[old(offset) - start..offset]
                && offset + |unread| >= Min(artifact.size, old(offset) + readAhead)
    {
      hide Snapshot, Select, Tiles, Content, Inv, Legal, Replay, RowsOf, Spliced, IdsBelow;
      var chunks, dbError := Fetch(want);
      if dbError {
        return true, false;
      }
      ghost var a, b := 0, 0;
      if good {
        a, b :| IsRun(chunks, content, a, b) && a <= offset && Limit(want) <= b;
      }
      ghost var from, cached := offset, p[..start];
      failed := false;
      panicked := Absorb(p, start, want, chunks, good, a, b);
      assert p[..start + want] == cached + p[start..start + want];
      if good {
        JoinSlices(content, from - start, from, offset);
      }
    }

    static lemma ReadSpecIs(content: Bytes, pos: int, len: nat)
      requires 0 <= pos <= |content|
      ensures var n := Min(len, |content| - pos);
              ReadSpec(content, pos, len)
              == (content[pos..pos + n], pos + n, if len > 0 && pos + n == |content| then EOF else NoError)
    {
    }

    function Limit(bytesToRead: int): int
      reads this
    {
      Min(artifact.size, offset + Max(bytesToRead, readAhead))
    }

    /**
      The query of a read: rows around the wanted bytes and as many more as readAhead asks for. All a
      read is told about them is that they cover those bytes, so what is proved of reads holds for
      every answer that does.
     */
    method Fetch(bytesToRead: int) returns (chunks: seq<Chunk>, failed: bool)
      requires db.Valid()
      modifies db`dbFaults
      ensures db.Valid() && db.dbFaults == old(db.dbFaults) + if failed then 1 else 0
      ensures forall c <- chunks :: c.Sound()
      ensures !failed && Valid() && 0 < bytesToRead && offset + bytesToRead <= |content| ==>
                Covers(chunks, content, offset, Limit(bytesToRead) - offset)
    {
      hide Select, Inv, Legal, Replay, Snapshot;
      chunks, failed := db.ListLogChunksInArtifact(artifact.id, offset, Limit(bytesToRead));
      if failed {
        chunks := [];
      }
      InvHasRows(db.store);
      RowsSound(db.store, artifact.id, offset, Limit(bytesToRead));
      if !failed && Valid() && 0 < bytesToRead && offset + bytesToRead <= |content| {
        var _, _ := FetchedRun(chunks, bytesToRead);
      }
    }

    lemma FetchedRun(chunks: seq<Chunk>, bytesToRead: int) returns (a: int, b: int)
      requires Valid() && 0 < bytesToRead && offset + bytesToRead <= |content|
      requires chunks == Select(RowsOf(db.store, artifact.id), offset, Limit(bytesToRead))
      ensures IsRun(chunks, content, a, b) && a <= offset && Limit(bytesToRead) <= b
      ensures Covers(chunks, content, offset, Limit(bytesToRead) - offset)
    {
      hide Snapshot, Select, Tiles, Content;
      a, b := SelectIsRun(RowsOf(db.store, artifact.id), content, offset, Limit(bytesToRead));
    }

    /** Serve what is cached. */
    method Drain(p: array<Byte>, ghost good: bool) returns (k: nat)
      requires 0 <= offset
      requires good ==> Agrees(content, offset, unread)
      modifies this`offset, this`unread, p
      ensures k == Min(|old(unread)|, p.Length) && offset == old(offset) + k && unread == old(unread)[k..]
      ensures p[k..] == old(p[k..])
      ensures good ==> Agrees(content, offset, unread) && p[..k] == content[old(offset)..offset]
    {
      k := Min(|unread|, p.Length);
      CopyInto(p, 0, unread[..k]);
      unread := unread[k..];
      offset := offset + k;
    }

    /**
      The loop of Read over the rows a query returned. All it needs of the query is that the rows
      are a contiguous run that covers the wanted bytes and stays within the snapshot; rows before
      and after those bytes make no difference to what is delivered.
     */
    method Absorb(p: array<Byte>, start: nat, want: nat, chunks: seq<Chunk>, ghost good: bool, ghost a: int, ghost b: int)
      returns (panicked: bool)
      requires forall c <- chunks :: c.Sound()
      requires 0 < want && start + want <= p.Length && 0 <= offset
      requires good ==> unread == [] && IsRun(chunks, content, a, b) && a <= offset && offset + want <= b
      modifies this`offset, this`unread, p
      ensures 0 <= offset
      ensures p[..start] == old(p[..start])
      ensures !panicked ==> p[start + want..] == old(p[start + want..])
      ensures good ==>
                && !panicked && offset == old(offset) + want
                && Agrees(content, offset, unread)
                && p[start..start + want] == content[old(offset)..offset]
                && unread == content[offset..b]
    {
      hide Tiles, Content, Spaced, Copying, Spliced;
      ghost var from, was, got: Bytes := offset, p[..], [];
      var k, left, i := start, want, 0;
      ghost var here := a;
      RunStart(chunks, content, from, want, a);
      SpliceNone(was, start);
      while i < |chunks|
        invariant i <= |chunks| && k == start + |got| && k + left == start + want && 0 <= left
        invariant offset == from + |got|
        invariant p[..] == Spliced(was, start, got)
        invariant good ==> here == a + |Content(chunks[..i])| && Copying(content, from, want, left, unread, here)
        invariant good ==> got == content[from..offset]
      {
        var c := chunks[i];
        assert c in chunks;
        if good {
          RowOfRun(chunks, content, a, b, i);
        }
        ghost var src: Bytes;
        var take: nat;
        take, panicked, src := TakeRow(p, k, left, c, good, from, want);
        if panicked {
          SpliceSides(was, start, got);
          return;
        }
        SpliceMore(was, start, got, src);
        if good {
          JoinSlices(content, from, offset - take, offset);
        }
        got := got + src;
        k, left := k + take, left - take;
        i := i + 1;
        here := c.End();
      }
      SpliceSides(was, start, got);
      if good {
        RunEnd(chunks, content, from, want, left, unread, a, b, i);
      }
      panicked := false;
    }

    /** The loop body: copy what is wanted of one row, cache what is left of it. */
    method TakeRow(p: array<Byte>, k: nat, left: nat, c: Chunk, ghost good: bool, ghost from: int, ghost want: int)
      returns (take: nat, panicked: bool, ghost src: Bytes)
      requires c.Sound() && k + left <= p.Length && 0 <= offset
      requires good ==> offset == from + want - left && NextRow(content, from, want, left, unread, c)
      modifies this`offset, this`unread, p
      ensures take == |src| <= left && offset == old(offset) + take
      ensures panicked ==> !good && p[..] == old(p[..])
      ensures p[..] == Spliced(old(p[..]), k, src)
      ensures good ==>
                src == content[old(offset)..offset] && Copying(content, from, want, left - take, unread, c.End())
    {
      hide Copying, Spliced, NextRow;
      SpliceNone(p[..], k);
      take, panicked, src := 0, false, [];
      ghost var cache := unread;
      if good {
        JustHere(content, from, want, left, cache, c);
      }
      if left == 0 {
        if good {
          RowCached(content, from, want, cache, c);
        }
        unread := unread + c.bytes;
      } else if good {
        RowSkipped(content, from, want, left, cache, c);
      }
      if c.offset < offset + left && c.End() > offset {
        var startByte := offset - c.offset;
        if startByte < 0 {
          return 0, true, [];
        }
        take := Min(left, c.size - startByte);
        if good {
          RowTaken(content, from, want, left, cache, c, startByte, take);
        }
        src := c.bytes[startByte..startByte + take];
        CopyInto(p, k, c.bytes[startByte..startByte + take]);
        offset := offset + take;
        if take < c.size - startByte {
          unread := unread + c.bytes[startByte + take..];
        }
      }
    }

    static lemma RunStart(chunks: seq<Chunk>, content: Bytes, from: int, want: int, a: int)
      requires 0 <= from && 0 < want
      ensures Content(chunks[..0]) == []
      ensures a <= from ==> Copying(content, from, want, want, [], a)
    {
    }

    static lemma RowOfRun(chunks: seq<Chunk>, content: Bytes, a: int, b: int, i: nat)
      requires IsRun(chunks, content, a, b) && i < |chunks|
      ensures chunks[i].offset == a + |Content(chunks[..i])| && chunks[i].End() == a + |Content(chunks[..i + 1])|
      ensures chunks[i].Sound() && chunks[i].End() <= b && chunks[i].bytes == content[chunks[i].offset..chunks[i].End()]
    {
      ChunkAt(chunks, a, b, i);
      SliceOfSlice(content, a, b, |Content(chunks[..i])|, |Content(chunks[..i + 1])|);
    }

    static lemma RunEnd(
      chunks: seq<Chunk>, content: Bytes, from: int, want: int, left: int, cache: Bytes, a: int, b: int, i: int)
      requires IsRun(chunks, content, a, b) && from + want <= b && i == |chunks|
      requires Copying(content, from, want, left, cache, a + |Content(chunks[..i])|)
      ensures left == 0 && cache == content[from + want..b]
    {
      assert chunks[..i] == chunks;
      TilesIffFull(chunks, a, b);
    }

    method SetOffset(target: int) returns (pos: int, failed: bool)
      requires 0 <= offset
      modifies this`offset, this`unread
      ensures 0 <= offset && pos == offset
      ensures failed <==> !(0 <= target <= artifact.size)
      ensures offset == if failed then old(offset) else target
      ensures |unread| <= |old(unread)|
      ensures old(Valid()) ==> Valid()
      ensures Agrees(content, old(offset), old(unread)) && |content| == artifact.size ==> Agrees(content, offset, unread)
    {
      if 0 <= target <= artifact.size {
        var delta := target - offset;
        if 0 <= delta < |unread| {
          unread := unread[delta..];
        } else {
          unread := [];
        }
        offset := target;
        return offset, false;
      }
      return offset, true;
    }

    method Seek(distance: int, whence: Whence) returns (pos: int, failed: bool)
      requires 0 <= offset
      modifies this`offset, this`unread
      ensures 0 <= offset && pos == offset && |unread| <= |old(unread)|
      ensures whence.SeekSet? ==> if 0 <= distance <= artifact.size then !failed && pos == distance else failed
      ensures whence.SeekCur? ==>
                if 0 <= old(offset) + distance <= artifact.size then !failed && pos == old(offset) + distance else failed
      ensures whence.SeekEnd? ==>
                if 0 <= -distance <= artifact.size then !failed && pos == artifact.size + distance else failed
      ensures failed ==> pos == old(offset)
      ensures var target := Target(old(offset), artifact.size, distance, whence);
              (failed <==> !(0 <= target <= artifact.size)) && offset == if failed then old(offset) else target
      ensures old(Valid()) ==> Valid() && (pos, failed) == SeekSpec(content, old(offset), distance, whence)
    {
      if whence == SeekSet {
        pos, failed := SetOffset(distance);
      } else if whence == SeekCur {
        pos, failed := SetOffset(offset + distance);
      } else {
        pos, failed := SetOffset(artifact.size + distance);
      }
    }
  }

  method CopyInto(p: array<Byte>, at: nat, src: Bytes)
    requires at + |src| <= p.Length
    modifies p
    ensures p[..] == Spliced(old(p[..]), at, src)
  {
    forall i | 0 <= i < |src| {
      p[at + i] := src[i];
    }
  }
}
