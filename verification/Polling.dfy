/**
  Following an artifact by polling: the range arithmetic, the cut at rune boundaries, and what a
  client that always asks for the last NextOffset receives over a whole run.
 */
module Polling {
  import opened Prelude
  import opened Model
  import opened LogChunks
  import opened Utf8
  import opened Store
  import opened Backend
  import opened LogReader
  import opened Handlers

  const MAX_CHUNKED_REQUEST_BYTES := 1000000

  // ----- the range of a request -----

  /** A query parameter; None when it is missing or no integer. */
  function IntParam(param: Option<int>, fallback: int): int {
    if param.Some? then param.value else fallback
  }

  function EffectiveLimit(limit: Option<int>): (n: int)
    ensures 1 <= n <= MAX_CHUNKED_REQUEST_BYTES
  {
    var l := Max(IntParam(limit, 0), 0);
    Min(if l == 0 then MAX_CHUNKED_REQUEST_BYTES else l, MAX_CHUNKED_REQUEST_BYTES)
  }

  /** A limit between 1 and 1,000,000 is taken as it is, a larger one cut, and any other is no limit. */
  lemma EffectiveLimitMeaning(limit: Option<int>)
    ensures forall l :: limit == Some(l) && 1 <= l <= 1_000_000 ==> EffectiveLimit(limit) == l
    ensures limit.None? || limit.value <= 0 || limit.value > 1_000_000 ==> EffectiveLimit(limit) == 1_000_000
  {
  }

  /** Inclusive range markers, or None with the offset to steer the client to. */
  datatype Range = Range(begin: int, end: int) | ReadBeyondEOF(size: int)

  function GetByteRangeFromRequest(size: int, offset: Option<int>, limit: Option<int>): Range {
    var begin := Max(IntParam(offset, 0), 0);
    if begin >= size then ReadBeyondEOF(size)
    else Range(begin, Min(size - 1, begin + EffectiveLimit(limit) - 1))
  }

  /**
    The range lies in the artifact, starts at the offset asked for or at 0, and holds as many bytes
    as the limit and the size allow; there is none for an offset at the end or past it.
   */
  lemma ByteRangeMeaning(size: int, offset: Option<int>, limit: Option<int>)
    ensures var range := GetByteRangeFromRequest(size, offset, limit);
            var start := if offset.Some? && offset.value >= 0 then offset.value else 0;
            && (range.ReadBeyondEOF? <==> start >= size)
            && (range.ReadBeyondEOF? ==> range.size == size)
            && (range.Range? ==>
                  && range.begin == start && 0 <= range.begin <= range.end < size
                  && range.end - range.begin + 1 == Min(EffectiveLimit(limit), size - start)
                  && 1 <= range.end - range.begin + 1 <= MAX_CHUNKED_REQUEST_BYTES)
  {
  }

  // ----- reading up to a rune boundary -----

  datatype RuneError = Io(err: ReadError) | InvalidStartingRune

  /**
    Reads through `r` and scans what was read. `m` is how much that was; the scan looks at the rest
    of the buffer too, which is why its end is `ScanEnd` and not simply the longest valid prefix.
   */
  method RuneLimitedRead(r: LogChunkReader, p: array<Byte>) returns (n: nat, err: RuneError, ghost m: nat)
    requires r.db.Valid() && 0 <= r.offset
    modifies r`offset, r`unread, r.db`dbFaults, p
    ensures |old(r.unread)| == 0 ==> r.db.dbFaults == old(r.db.dbFaults) + if err == Io(DbError) then 1 else 0
    ensures n <= m <= p.Length
    ensures old(r.Valid()) ==>
              && r.Valid() && err != Io(Panic) && r.offset == old(r.offset) + m
              && p[..m] == r.content[old(r.offset)..r.offset]
    ensures old(r.Valid()) && err.Io? && err.err != DbError ==>
              (p[..m], r.offset, err.err) == ReadSpec(r.content, old(r.offset), p.Length)
    ensures if m > 0 && Tail(p[0]) then n == 0 && err == InvalidStartingRune
            else err.Io? && n == ScanEnd(p[..], m)
  {
    hide r.Valid, r.db.Valid, ReadSpec, Valid, RuneLength, LongestValid, ScanEnd, DecodeRune;
    var read, e := r.Read(p);
    m := read;
    if read == 0 {
      ScanOfNothing(p[..]);
      return 0, Io(e), m;
    }
    if read > 0 && !RuneStart(p[0]) {
      return 0, InvalidStartingRune, m;
    }
    var i := 0;
    ghost var was := p[..];
    assert was[0..m] == was[..m];
    ScanDone(was, m, 0);
    while i < read
      invariant p[..] == was
      invariant i <= m ==> LongestValid(was[..m]) == i + LongestValid(was[i..m])
      invariant i > m ==> ScanEnd(was, m) == m
      modifies {}
    {
      assert was[i..][0] == was[i];
      DecodeRuneMeetsGrammar(was[i..]);
      DecodeRuneWidth(was[i..]);
      ScanStep(was, m, i);
      ScanDone(was, m, i);
      if p[i] < RUNE_SELF {
        AsciiIsRune(was[i..]);
        i := i + 1;
        continue;
      }
      var (rune, size) := DecodeRune(p[i..]);
      if size == 1 && rune == RUNE_ERROR {
        return i, Io(e), m;
      }
      i := i + size;
    }
    if i == read {
      ScanDone(was, m, m);
    }
    return read, Io(e), m;
  }

  lemma ScanOfNothing(p: Bytes)
    ensures ScanEnd(p, 0) == 0
  {
  }

  lemma AsciiIsRune(s: Bytes)
    requires s != [] && s[0] < RUNE_SELF
    ensures RuneLength(s) == 1
  {
    assert s[..1][0] == s[0];
  }

  /** How the scan ends, seen from position i. */
  lemma ScanDone(p: Bytes, m: nat, i: nat)
    requires i <= m <= |p| && LongestValid(p[..m]) == i + LongestValid(p[i..m])
    ensures LongestValid(p[i..m]) == 0 && RuneLength(p[i..]) == 0 ==> ScanEnd(p, m) == i
    ensures LongestValid(p[i..m]) == 0 && i < m && RuneLength(p[i..]) > 0 ==> ScanEnd(p, m) == m
    ensures i == m ==> ScanEnd(p, m) == m
  {
  }

  // ----- one poll -----

  /**
    The reply to a poll: an error status, no reply body at all, or a result with at most one piece
    of text, whether this was the end, and where to continue.
   */
  datatype Reply =
    | Failure
    | NoBody
    | Result(text: Option<Bytes>, eof: bool, nextOffset: int)

  /** The answer to `Range: bytes=begin-end` on an object (section 2.1 of RFC 7233). */
  function RangeOf(data: Bytes, begin: nat, end: int): Option<Bytes>
    requires begin <= end
  {
    if begin < |data| then Some(data[begin..Min(end + 1, |data|)]) else None
  }

  /** What a poll answers when every database and S3 call it makes is answered. */
  function Poll(e: Entry, objects: map<string, Bytes>, offset: Option<int>, limit: Option<int>): Reply {
    match GetByteRangeFromRequest(e.row.size, offset, limit)
    case ReadBeyondEOF(size) => Result(None, e.row.state == UPLOADED, size)
    case Range(begin, end) =>
      match e.row.state
      case UPLOADING => Result(None, false, begin)
      case WAITING_FOR_UPLOAD => Result(None, false, begin)
      case UPLOADED =>
        if e.row.s3url !in objects then Failure
        else
          (match RangeOf(objects[e.row.s3url], begin, end)
           case None => Failure
           case Some(text) => Result(Some(text), begin + |text| == e.row.size, begin + |text|))
      case APPENDING => PollRows(e.content, begin, end)
      case APPEND_COMPLETE => PollRows(e.content, begin, end)
      case _ => NoBody
  }

  /** From the rows: the bytes of the range, cut at the last rune boundary. */
  function PollRows(content: Bytes, begin: nat, end: int): Reply
    requires begin <= end
  {
    if end >= |content| then Failure
    else
      var bytes := content[begin..end + 1];
      if Tail(bytes[0]) then Failure
      else
        var n := LongestValid(bytes);
        if n > 0 then Result(Some(bytes[..n]), false, begin + n) else Result(None, false, begin)
  }

  method GetArtifactContentChunks(b: Backend, artifact: Artifact, offset: Option<int>, limit: Option<int>)
    returns (reply: Reply, answered: bool)
    requires b.Valid() && Bound(b.store, artifact)
    modifies b`dbFaults, b`s3Faults
    ensures b.Valid()
    ensures b.dbFaults + b.s3Faults == old(b.dbFaults + b.s3Faults) + if answered then 0 else 1
    ensures !answered ==> reply == Failure && artifact.state in {UPLOADED, APPENDING, APPEND_COMPLETE}
    ensures answered && (b.store.entries[artifact.id].Whole() || artifact.state !in {APPENDING, APPEND_COMPLETE}) ==>
              reply == Poll(b.store.entries[artifact.id], b.store.objects, offset, limit)
  {
    hide Inv, Legal, Replay, Snapshot, ScanEnd, LongestValid, Content, ReadSpec, RangeOf, PollRows;
    answered := true;
    var range := GetByteRangeFromRequest(artifact.size, offset, limit);
    if range.ReadBeyondEOF? {
      return Result(None, artifact.state == UPLOADED, range.size), true;
    }
    var begin, end := range.begin, range.end;
    match artifact.state
    case UPLOADING =>
      return Result(None, false, begin), true;
    case WAITING_FOR_UPLOAD =>
      return Result(None, false, begin), true;
    case UPLOADED =>
      var s3Error := b.Get();
      if s3Error {
        return Failure, false;
      }
      if artifact.s3url !in b.store.objects {
        return Failure, true;
      }
      var text := RangeOf(b.store.objects[artifact.s3url], begin, end);
      if text.None? {
        return Failure, true;
      }
      var nextOffset := begin + |text.value|;
      return Result(text, nextOffset == artifact.size, nextOffset), true;
    case APPENDING =>
      reply, answered := FromRows(b, artifact, begin, end);
    case APPEND_COMPLETE =>
      reply, answered := FromRows(b, artifact, begin, end);
    case _ =>
      return NoBody, true;
  }

  /** The case of an artifact still in its chunk rows. */
  method FromRows(b: Backend, artifact: Artifact, begin: nat, end: int) returns (reply: Reply, answered: bool)
    requires b.Valid() && Bound(b.store, artifact) && artifact.state in {APPENDING, APPEND_COMPLETE}
    requires begin <= end < artifact.size
    modifies b`dbFaults
    ensures b.Valid()
    ensures b.dbFaults == old(b.dbFaults) + if answered then 0 else 1
    ensures !answered ==> reply == Failure
    ensures answered && b.store.entries[artifact.id].Whole() ==>
              reply == PollRows(b.store.entries[artifact.id].content, begin, end)
  {
    hide Inv, Legal, Replay, Snapshot, ScanEnd, LongestValid, Content, Valid, RuneLength, ReadSpec, PollRows;
    ghost var e := b.store.entries[artifact.id];
    ChunkedByState(b.store, artifact.id);
    if e.Whole() {
      WholeMeansTiled(b.store, artifact.id);
    }
    var rd := new LogChunkReader(artifact, b, e.content);
    var _, _ := rd.Seek(begin, SeekSet);
    var bts := new Byte[end - begin + 1];
    var n, err, m := RuneLimitedRead(rd, bts);
    if err != Io(NoError) && err != Io(EOF) {
      if e.Whole() {
        FailureOfRows(e.content, begin, end, m, bts[..], err);
      }
      return Failure, err != Io(DbError);
    }
    answered := true;
    if n > 0 {
      reply := Result(Some(bts[..n]), false, begin + n);
    } else {
      reply := Result(None, false, begin);
    }
    if e.Whole() {
      ReplyOfRows(e.content, begin, end, m, bts[..], n);
    }
  }

  lemma FailureOfRows(content: Bytes, begin: nat, end: int, m: nat, p: Bytes, err: RuneError)
    requires begin <= end < |content| && |p| == end - begin + 1 && m <= |p|
    requires p[..m] == content[begin..begin + m]
    requires err == InvalidStartingRune ==> m > 0 && Tail(p[0])
    ensures err == InvalidStartingRune ==> PollRows(content, begin, end) == Failure
  {
    if err == InvalidStartingRune {
      assert p[0] == p[..m][0] == content[begin];
    }
  }

  lemma ReplyOfRows(content: Bytes, begin: nat, end: int, m: nat, p: Bytes, n: nat)
    requires begin <= end < |content| && |p| == end - begin + 1 && m <= |p|
    requires (p[..m], begin + m) == (ReadSpec(content, begin, |p|).0, ReadSpec(content, begin, |p|).1)
    requires (m > 0 ==> !Tail(p[0])) && n == ScanEnd(p, m)
    ensures n <= |p|
    ensures PollRows(content, begin, end) ==
            if n > 0 then Result(Some(p[..n]), false, begin + n) else Result(None, false, begin)
  {
    hide LongestValid, RuneLength;
    assert m == |p| && p[..m] == p;
    CleanBufferScansExactly(p, m);
    assert content[begin..end + 1] == p;
  }
}
