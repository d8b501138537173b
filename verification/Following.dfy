/** A client that starts at 0 and always asks for the last NextOffset, over a whole run of the system. */
module Following {
  import opened Prelude
  import opened Model
  import opened LogChunks
  import opened Utf8
  import opened Store
  import opened LogReader
  import opened Polling

  /** One poll: after how many calls of the run it is served, with what limit, and whether a reply comes. */
  datatype Round = Round(at: nat, limit: Option<int>, answered: bool)

  /** Where the client stands. `failures` counts replies that were errors of the handler's own making. */
  datatype Poller = Poller(next: int, received: Bytes, eof: bool, failures: nat)

  const START := Poller(0, [], false, 0)

  function Hear(p: Poller, reply: Reply): Poller {
    match reply
    case Failure => p.(failures := p.failures + 1)
    case NoBody => p
    case Result(text, eof, next) => Poller(next, p.received + (if text.Some? then text.value else []), eof, p.failures)
  }

  function Ask(p: Poller, s: Store, id: nat, round: Round): Poller {
    if round.answered && id in s.entries then
      Hear(p, Poll(s.entries[id], s.objects, Some(p.next), round.limit))
    else p
  }

  function Follow(p: Poller, log: seq<Change>, id: nat, rounds: seq<Round>): Poller
    requires forall i :: 0 <= i < |rounds| ==> rounds[i].at <= |log|
    decreases |rounds|
  {
    if rounds == [] then p
    else
      Follow(Ask(p, After(log, rounds[0].at), id, rounds[0]), log, id, rounds[1..])
  }

  /** Bytes are being served from a complete artifact, or an upload has not finished yet. */
  predicate Pollable(s: Store, id: nat) {
    && id in s.entries && SlashFree(s)
    && var e := s.entries[id];
       e.Whole() || (e.origin.Streamed? && e.row.state != UPLOADED && e.row.size >= 0)
  }

  ghost predicate RoundsOk(log: seq<Change>, id: nat, rounds: seq<Round>) {
    && (forall i :: 0 <= i < |rounds| ==> rounds[i].at <= |log| && Pollable(After(log, rounds[i].at), id))
    && (forall i, j :: 0 <= i < j < |rounds| ==> rounds[i].at <= rounds[j].at)
  }

  /** What was received is the content up to NextOffset; the end is only announced at the end. */
  ghost predicate InStep(p: Poller, e: Entry) {
    && 0 <= p.next <= |e.content| && p.received == e.content[..p.next]
    && (e.origin.Streamed? && e.row.state != UPLOADED ==> p.next == 0)
    && (p.eof ==> e.row.state == UPLOADED && p.next == e.row.size)
  }

  lemma TimeKeepsInStep(p: Poller, e: Entry, e': Entry)
    requires InStep(p, e) && Later(e, e')
    ensures InStep(p, e')
  {
    if e.origin.Chunked? {
      assert e'.content[..p.next] == e.content[..p.next];
    }
  }

  /** A piece that starts where the client stands extends what it received. */
  lemma PieceExtends(content: Bytes, begin: nat, text: Bytes)
    requires begin + |text| <= |content| && text == content[begin..begin + |text|]
    ensures content[..begin] + text == content[..begin + |text|]
  {
  }

  lemma RowsArePiece(content: Bytes, begin: nat, end: nat)
    requires begin <= end
    ensures var reply := PollRows(content, begin, end);
            reply.Result? && reply.text.Some? ==>
              && reply.nextOffset == begin + |reply.text.value| <= |content| && !reply.eof
              && reply.text.value == content[begin..reply.nextOffset]
  {
    hide LongestValid;
  }

  /** Whatever text a poll returns is the content from the requested offset on. */
  lemma PollIsPiece(s: Store, id: nat, next: nat, limit: Option<int>)
    requires Inv(s) && Pollable(s, id) && next <= |s.entries[id].content|
    ensures var e := s.entries[id];
            var reply := Poll(e, s.objects, Some(next), limit);
            reply.Result? && reply.text.Some? ==>
              && |e.content| == e.row.size && e.row.state in {APPENDING, APPEND_COMPLETE, UPLOADED}
              && reply.nextOffset == next + |reply.text.value| <= |e.content|
              && reply.text.value == e.content[next..reply.nextOffset]
              && (reply.eof ==> e.row.state == UPLOADED && reply.nextOffset == e.row.size)
  {
    hide PollRows, S3Key, Inv;
    var e := s.entries[id];
    ChunkedFacts(s, id);
    if e.row.state == UPLOADED {
      UploadedIsStored(s, id);
    }
    var range := GetByteRangeFromRequest(e.row.size, Some(next), limit);
    if range.Range? {
      RowsArePiece(e.content, range.begin, range.end);
    }
  }

  /** What a poll does for a client that is in step. */
  lemma PollContinues(s: Store, id: nat, p: Poller, limit: Option<int>)
    requires Inv(s) && Pollable(s, id) && InStep(p, s.entries[id])
    ensures InStep(Hear(p, Poll(s.entries[id], s.objects, Some(p.next), limit)), s.entries[id])
  {
    hide PollRows, RangeOf, S3Key, Inv, SlashFree;
    var e := s.entries[id];
    var reply := Poll(e, s.objects, Some(p.next), limit);
    PollIsPiece(s, id, p.next, limit);
    ChunkedFacts(s, id);
    if reply.Result? {
      if reply.text.Some? {
        PieceExtends(e.content, p.next, reply.text.value);
      } else {
        NoTextStays(s, id, p, limit);
      }
    }
  }

  lemma NoTextStays(s: Store, id: nat, p: Poller, limit: Option<int>)
    requires Inv(s) && Pollable(s, id) && InStep(p, s.entries[id])
    ensures var e := s.entries[id];
            var reply := Poll(e, s.objects, Some(p.next), limit);
            reply.Result? && reply.text.None? ==>
              reply.nextOffset == p.next && (reply.eof ==> e.row.state == UPLOADED && p.next == e.row.size)
  {
    hide LongestValid, RangeOf, S3Key, Inv, SlashFree;
    ChunkedFacts(s, id);
  }

  lemma ChunkedFacts(s: Store, id: nat)
    requires Inv(s) && id in s.entries
    ensures var e := s.entries[id];
            && (e.origin.Streamed? ==> e.row.state !in {APPENDING, APPEND_COMPLETE})
            && (e.origin.Chunked? ==> e.row.size >= 0)
            && (e.row.state == UPLOADED ==> e.row.s3url == e.row.DefaultS3URL())
  {
    hide Spaced, Content, Unique, ObjectsInv, S3Key;
    assert EntryInv(s.entries[id]);
    if s.entries[id].origin.Chunked? {
      SpacedBounds(s.entries[id].chunks, 0, s.entries[id].row.size);
    }
  }

  lemma UploadedIsStored(s: Store, id: nat)
    requires Inv(s) && SlashFree(s) && id in s.entries
    requires s.entries[id].row.state == UPLOADED && s.entries[id].Whole()
    ensures s.entries[id].row.s3url in s.objects && s.objects[s.entries[id].row.s3url] == s.entries[id].content
  {
    hide RowsInv, Unique, S3Key;
    ChunkedFacts(s, id);
  }

  /**
    Gap-free polling: across any run of the system, with polls interleaved anywhere, whatever their
    limits and however many of them fail, the pieces received add up to content[0..NextOffset), and
    EOF is only ever reported for an uploaded artifact at NextOffset == Size.
   */
  lemma GapFreePolling(log: seq<Change>, id: nat, rounds: seq<Round>)
    requires Legal(EMPTY, log) && RoundsOk(log, id, rounds) && rounds != []
    ensures var e := After(log, rounds[|rounds| - 1].at).entries[id];
            var p := Follow(START, log, id, rounds);
            && 0 <= p.next <= |e.content| && p.received == e.content[..p.next]
            && (p.eof ==> e.row.state == UPLOADED && p.next == e.row.size)
  {
    hide After, Legal, Inv;
    var s := After(log, rounds[0].at);
    assert s.entries[id].content[..0] == [];
    FollowIsGapFree(log, id, rounds, START, rounds[0].at);
  }

  lemma {:induction false} FollowIsGapFree(log: seq<Change>, id: nat, rounds: seq<Round>, p: Poller, k: nat)
    requires Legal(EMPTY, log) && RoundsOk(log, id, rounds) && rounds != []
    requires k <= rounds[0].at && id in After(log, k).entries
    requires InStep(p, After(log, k).entries[id])
    ensures InStep(Follow(p, log, id, rounds), After(log, rounds[|rounds| - 1].at).entries[id])
    decreases |rounds|
  {
    hide After, Legal, InStep, Inv, Later, Hear, Poll;
    var r := rounds[0];
    var s := After(log, r.at);
    LifeCycleMovesForward(log, k, r.at, id);
    TimeKeepsInStep(p, After(log, k).entries[id], s.entries[id]);
    AfterIsReachable(log, r.at);
    PollContinues(s, id, p, r.limit);
    if |rounds| > 1 {
      FollowIsGapFree(log, id, rounds[1..], Ask(p, s, id, r), r.at);
    }
  }

  /** Once the artifact is uploaded every poll gets closer to the end, and the end is announced. */
  lemma UploadedPollAdvances(s: Store, id: nat, p: Poller, limit: Option<int>)
    requires Inv(s) && Pollable(s, id) && InStep(p, s.entries[id]) && s.entries[id].row.state == UPLOADED
    ensures var e := s.entries[id];
            var p' := Hear(p, Poll(e, s.objects, Some(p.next), limit));
            && p'.failures == p.failures
            && (p.next < e.row.size ==> p.next < p'.next <= e.row.size)
            && (p'.eof <==> p'.next == e.row.size)
  {
    hide RowsInv, Unique, S3Key;
    ChunkedFacts(s, id);
    UploadedIsStored(s, id);
  }

  // ----- how much a poll returns -----

  /** An uploaded artifact is served in full: everything up to the limit or the end. */
  lemma UploadedPollServesLimit(s: Store, id: nat, next: nat, limit: Option<int>)
    requires Inv(s) && Pollable(s, id) && s.entries[id].row.state == UPLOADED && next < s.entries[id].row.size
    ensures var e := s.entries[id];
            var n := Min(next + EffectiveLimit(limit), e.row.size);
            Poll(e, s.objects, Some(next), limit) == Result(Some(e.content[next..n]), n == e.row.size, n)
  {
    hide RowsInv, Unique, S3Key, EffectiveLimit;
    ChunkedFacts(s, id);
    UploadedIsStored(s, id);
  }

  /**
    From the rows a poll serves the longest valid text within the limit, and it is refused exactly
    when it starts inside a rune.
   */
  lemma LivePollServesLongest(s: Store, id: nat, next: nat, limit: Option<int>)
    requires id in s.entries && s.entries[id].Whole() && s.entries[id].row.state in {APPENDING, APPEND_COMPLETE}
    requires next < s.entries[id].row.size
    ensures var e := s.entries[id];
            var bound := Min(next + EffectiveLimit(limit), e.row.size);
            match Poll(e, s.objects, Some(next), limit)
            case Result(text, eof, nextOffset) =>
              && !Tail(e.content[next]) && !eof
              && next <= nextOffset <= bound && Valid(e.content[next..nextOffset])
              && (forall k :: nextOffset < k <= bound ==> !Valid(e.content[next..k]))
              && text == if next < nextOffset then Some(e.content[next..nextOffset]) else None
            case Failure => Tail(e.content[next])
            case NoBody => false
  {
    hide Valid, LongestValid, EffectiveLimit;
    var e := s.entries[id];
    var bound := Min(next + EffectiveLimit(limit), e.row.size);
    var bytes := e.content[next..bound];
    assert bytes[0] == e.content[next];
    LongestValidIsLongest(bytes);
    forall k | next <= k <= bound ensures bytes[..k - next] == e.content[next..k] {
    }
  }

  /** The other answers: nothing yet while an upload is due or under way, the size at or past the end, and no body for the rest. */
  lemma PollWithoutText(e: Entry, objects: map<string, Bytes>, next: nat, limit: Option<int>)
    ensures var reply := Poll(e, objects, Some(next), limit);
            && (next >= e.row.size ==> reply == Result(None, e.row.state == UPLOADED, e.row.size))
            && (next < e.row.size && e.row.state in {WAITING_FOR_UPLOAD, UPLOADING} ==> reply == Result(None, false, next))
            && (next < e.row.size && e.row.state == UPLOADED && e.row.s3url !in objects ==> reply == Failure)
            && (next < e.row.size && e.row.state in {UNKNOWN_ARTIFACT_STATE, ERROR, DEADLINE_EXCEEDED, CLOSED_WITHOUT_DATA} ==>
                  reply == NoBody)
  {
  }

  /** How many bytes the rounds ask for. */
  function Total(rounds: seq<Round>): (n: nat)
    ensures n >= |rounds|
  {
    if rounds == [] then 0 else EffectiveLimit(rounds[0].limit) + Total(rounds[1..])
  }

  /**
    A client that begins when the artifact is uploaded has, after any answered polls, exactly as many
    bytes as it asked for, or all of them; and it is told of the end exactly when it has them all.
   */
  lemma FollowReachesEnd(log: seq<Change>, id: nat, rounds: seq<Round>)
    requires Legal(EMPTY, log) && RoundsOk(log, id, rounds) && rounds != []
    requires forall i :: 0 <= i < |rounds| ==> rounds[i].answered
    requires After(log, rounds[0].at).entries[id].row.state == UPLOADED
    ensures var e := After(log, rounds[0].at).entries[id];
            var p := Follow(START, log, id, rounds);
            && p.failures == 0
            && |e.content| == e.row.size
            && p.next == Min(Total(rounds), e.row.size) && p.received == e.content[..p.next]
            && (p.eof <==> Total(rounds) >= e.row.size)
  {
    hide After, Legal, Inv, Poll, Follow, EffectiveLimit, Total;
    var e := After(log, rounds[0].at).entries[id];
    forall i | 0 <= i < |rounds| ensures SameText(After(log, rounds[i].at), id, e) {
      LifeCycleMovesForward(log, rounds[0].at, rounds[i].at, id);
    }
    FollowUploaded(log, id, rounds, START, e);
  }

  /** The artifact is uploaded, and is `e` but for chunk rows not deleted yet. */
  predicate SameText(s: Store, id: nat, e: Entry) {
    && id in s.entries && s.entries[id].row == e.row && s.entries[id].content == e.content
    && e.row.state == UPLOADED
  }

  lemma {:induction false} FollowUploaded(log: seq<Change>, id: nat, rounds: seq<Round>, p: Poller, e: Entry)
    requires Legal(EMPTY, log) && RoundsOk(log, id, rounds) && rounds != []
    requires forall i :: 0 <= i < |rounds| ==> rounds[i].answered && SameText(After(log, rounds[i].at), id, e)
    requires e.Whole() && 0 <= p.next <= |e.content| && p.received == e.content[..p.next]
    ensures var p' := Follow(p, log, id, rounds);
            && p'.failures == p.failures
            && p'.next == Min(p.next + Total(rounds), e.row.size)
            && p'.received == e.content[..p'.next]
            && (p'.eof <==> p'.next == e.row.size)
    decreases |rounds|
  {
    hide After, Legal, Inv, Ask, Pollable, EffectiveLimit;
    var r := rounds[0];
    var s := After(log, r.at);
    AfterIsReachable(log, r.at);
    UploadedRound(s, id, p, r, e);
    if |rounds| > 1 {
      FollowUploaded(log, id, rounds[1..], Ask(p, s, id, r), e);
    }
  }

  lemma UploadedRound(s: Store, id: nat, p: Poller, r: Round, e: Entry)
    requires Inv(s) && Pollable(s, id) && SameText(s, id, e) && r.answered
    requires 0 <= p.next <= |e.content| && p.received == e.content[..p.next]
    ensures var n := Min(p.next + EffectiveLimit(r.limit), e.row.size);
            Ask(p, s, id, r) == Poller(n, e.content[..n], n == e.row.size, p.failures)
  {
    hide Inv, Poll, S3Key;
    if p.next < e.row.size {
      UploadedPollServesLimit(s, id, p.next, r.limit);
      var n := Min(p.next + EffectiveLimit(r.limit), e.row.size);
      assert e.content[..p.next] + e.content[p.next..n] == e.content[..n];
    } else {
      PollWithoutText(s.entries[id], s.objects, p.next, r.limit);
      assert e.content[..p.next] + [] == e.content[..p.next];
    }
  }

  // ----- rune boundaries -----

  /** The artifact is still read from its rows and holds the beginning of a valid text. */
  predicate LiveText(s: Store, id: nat, text: Bytes) {
    && id in s.entries && s.entries[id].Whole()
    && s.entries[id].row.state in {APPENDING, APPEND_COMPLETE}
    && s.entries[id].content <= text
  }

  /**
    From a rune boundary a poll is never refused, returns valid UTF-8 and stops at a boundary again;
    and with a limit of at least 4 it advances exactly when a complete rune is there.
   */
  lemma PollStaysOnBoundary(s: Store, id: nat, text: Bytes, next: nat, limit: Option<int>)
    requires LiveText(s, id, text) && Valid(text)
    requires next <= s.entries[id].row.size && Valid(text[..next])
    ensures var e := s.entries[id];
            var reply := Poll(e, s.objects, Some(next), limit);
            && reply.Result?
            && next <= reply.nextOffset <= e.row.size && Valid(text[..reply.nextOffset])
            && (reply.text.Some? ==> Valid(reply.text.value))
            && (EffectiveLimit(limit) >= 4 ==>
                  (reply.nextOffset > next <==> next < e.row.size && RuneLength(text[next..]) <= e.row.size - next))
  {
    hide Valid, RuneLength, PollRows;
    var content, size := s.entries[id].content, s.entries[id].row.size;
    if next < size {
      var end := Min(size - 1, next + EffectiveLimit(limit) - 1);
      RowsStayOnBoundary(content, text, next, end);
    }
  }

  lemma RowsStayOnBoundary(content: Bytes, text: Bytes, begin: nat, end: nat)
    requires begin <= end < |content| && content <= text && Valid(text) && Valid(text[..begin])
    ensures var reply := PollRows(content, begin, end);
            && reply.Result?
            && begin <= reply.nextOffset <= |content| && Valid(text[..reply.nextOffset])
            && (reply.text.Some? ==> Valid(reply.text.value))
            && (reply.nextOffset > begin <==> RuneLength(text[begin..]) <= end + 1 - begin)
    ensures 0 < RuneLength(text[begin..]) <= 4
  {
    hide Valid, RuneLength, LongestValid;
    assert content[begin..end + 1] == text[begin..end + 1];
    assert content[begin..end + 1][0] == text[begin];
    CutStaysOnBoundary(text, begin, end + 1);
    CutAdvances(text, begin, end + 1);
  }

  /** A client that polls a live text never fails and is always at a rune boundary. */
  lemma {:induction false} FollowStaysOnBoundary(
    log: seq<Change>, id: nat, rounds: seq<Round>, p: Poller, k: nat, text: Bytes)
    requires Legal(EMPTY, log) && RoundsOk(log, id, rounds) && Valid(text)
    requires forall i :: 0 <= i < |rounds| ==> k <= rounds[i].at && LiveText(After(log, rounds[i].at), id, text)
    requires k <= |log| && id in After(log, k).entries && InStep(p, After(log, k).entries[id])
    requires p.next <= |text| && p.received == text[..p.next] && Valid(text[..p.next])
    ensures var p' := Follow(p, log, id, rounds);
            p'.failures == p.failures && p'.received <= text && Valid(p'.received)
    decreases |rounds|
  {
    hide After, Legal, Inv, Later, Poll, Valid;
    if rounds != [] {
      var r := rounds[0];
      var s := After(log, r.at);
      LifeCycleMovesForward(log, k, r.at, id);
      TimeKeepsInStep(p, After(log, k).entries[id], s.entries[id]);
      AfterIsReachable(log, r.at);
      PollContinues(s, id, p, r.limit);
      PollStaysOnBoundary(s, id, text, p.next, r.limit);
      FollowStaysOnBoundary(log, id, rounds[1..], Ask(p, s, id, r), r.at, text);
    }
  }

  /** A client that starts at 0 and polls while the text is live receives valid UTF-8, and no refusal. */
  lemma PollingStaysOnRuneBoundaries(log: seq<Change>, id: nat, rounds: seq<Round>, text: Bytes)
    requires Legal(EMPTY, log) && RoundsOk(log, id, rounds) && rounds != [] && Valid(text)
    requires forall i :: 0 <= i < |rounds| ==> LiveText(After(log, rounds[i].at), id, text)
    ensures var p := Follow(START, log, id, rounds);
            p.failures == 0 && p.received <= text && Valid(p.received)
  {
    hide After, Legal, Inv;
    assert After(log, rounds[0].at).entries[id].content[..0] == [] && text[..0] == [];
    FollowStaysOnBoundary(log, id, rounds, START, rounds[0].at, text);
  }
}
