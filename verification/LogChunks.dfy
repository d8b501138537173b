/**
  The chunk rows of one artifact, and the queries the server runs over them.
  Rows are kept in insertion order; every query that needs an order sorts.
 */
module LogChunks {
  import opened Prelude

  datatype Chunk = Chunk(offset: int, size: int, bytes: Bytes) {
    predicate Sound() {
      0 < size == |bytes| && 0 <= offset
    }

    function End(): int {
      offset + size
    }
  }

  /** Sound rows, in order of offset, disjoint, inside [lo, hi). */
  ghost predicate Spaced(cs: seq<Chunk>, lo: int, hi: int) {
    if cs == [] then lo <= hi
    else cs[0].Sound() && lo <= cs[0].offset && Spaced(cs[1..], cs[0].End(), hi)
  }

  /** Sound rows, in order of offset, covering [lo, hi) without a gap. */
  ghost predicate Tiles(cs: seq<Chunk>, lo: int, hi: int) {
    if cs == [] then lo == hi
    else cs[0].Sound() && cs[0].offset == lo && Tiles(cs[1..], cs[0].End(), hi)
  }

  function Content(cs: seq<Chunk>): Bytes {
    if cs == [] then [] else cs[0].bytes + Content(cs[1..])
  }

  // ----- what the two layouts mean -----

  /** Spaced says exactly: non-empty rows, pairwise disjoint and ascending, inside [lo, hi). */
  lemma {:induction false} SpacedMeaning(cs: seq<Chunk>, lo: int, hi: int)
    requires 0 <= lo <= hi
    ensures Spaced(cs, lo, hi) <==>
            && (forall i :: 0 <= i < |cs| ==> cs[i].Sound() && lo <= cs[i].offset && cs[i].End() <= hi)
            && (forall i, j :: 0 <= i < j < |cs| ==> cs[i].End() <= cs[j].offset)
  {
    if cs != [] {
      var c, rest := cs[0], cs[1..];
      if c.Sound() && lo <= c.offset && c.End() <= hi {
        SpacedMeaning(rest, c.End(), hi);
        assert forall i :: 0 <= i < |rest| ==> rest[i] == cs[i + 1];
        if forall i, j :: 0 <= i < j < |cs| ==> cs[i].End() <= cs[j].offset {
          assert forall i, j :: 0 <= i < j < |rest| ==> rest[i].End() <= rest[j].offset;
        }
        if Spaced(cs, lo, hi) {
          forall i, j | 0 <= i < j < |cs| ensures cs[i].End() <= cs[j].offset {
            assert cs[j] == rest[j - 1];
            if i > 0 { assert cs[i] == rest[i - 1]; }
          }
        }
      } else if Spaced(cs, lo, hi) {
        SpacedBounds(cs, lo, hi);
        assert false;
      }
    }
  }

  lemma {:induction false} SpacedBounds(cs: seq<Chunk>, lo: int, hi: int)
    requires Spaced(cs, lo, hi)
    ensures lo <= hi && |Content(cs)| <= hi - lo
    ensures forall i :: 0 <= i < |cs| ==> cs[i].Sound() && lo <= cs[i].offset && cs[i].End() <= hi
  {
    if cs != [] {
      SpacedBounds(cs[1..], cs[0].End(), hi);
      assert forall i :: 0 < i < |cs| ==> cs[i] == cs[1..][i - 1];
    }
  }

  /** A spaced table is gap-free exactly when its bytes add up to the range it lies in. */
  lemma {:induction false} TilesIffFull(cs: seq<Chunk>, lo: int, hi: int)
    ensures Tiles(cs, lo, hi) <==> Spaced(cs, lo, hi) && |Content(cs)| == hi - lo
  {
    if cs != [] {
      TilesIffFull(cs[1..], cs[0].End(), hi);
      if Spaced(cs, lo, hi) {
        SpacedBounds(cs[1..], cs[0].End(), hi);
      }
    }
  }

  // ----- rows added at the end -----

  lemma ContentCons(c: Chunk, cs: seq<Chunk>)
    ensures Content([c] + cs) == c.bytes + Content(cs)
  {
    assert ([c] + cs)[1..] == cs;
  }

  lemma {:induction false} ContentConcat(cs: seq<Chunk>, ds: seq<Chunk>)
    ensures Content(cs + ds) == Content(cs) + Content(ds)
  {
    if cs == [] {
      assert cs + ds == ds;
    } else {
      hide *;
      var c, rest := cs[0], cs[1..];
      assert cs == [c] + rest && cs + ds == [c] + (rest + ds);
      ContentCons(c, rest);
      ContentCons(c, rest + ds);
      ContentConcat(rest, ds);
      assert c.bytes + (Content(rest) + Content(ds)) == (c.bytes + Content(rest)) + Content(ds);
    }
  }

  lemma {:induction false} SpacedSnoc(cs: seq<Chunk>, lo: int, mid: int, c: Chunk, hi: int)
    requires Spaced(cs, lo, mid)
    requires c.Sound() && mid <= c.offset && c.End() <= hi
    ensures Spaced(cs + [c], lo, hi)
    ensures Content(cs + [c]) == Content(cs) + c.bytes
  {
    ContentConcat(cs, [c]);
    assert Content([c]) == c.bytes;
    if cs == [] {
      assert cs + [c] == [c];
      assert Spaced([c][1..], c.End(), hi);
    } else {
      SpacedSnoc(cs[1..], cs[0].End(), mid, c, hi);
      assert (cs + [c])[1..] == cs[1..] + [c];
    }
  }

  lemma {:induction false} SpacedWiden(cs: seq<Chunk>, lo: int, hi: int, hi': int)
    requires Spaced(cs, lo, hi) && hi <= hi'
    ensures Spaced(cs, lo, hi')
  {
    if cs != [] {
      SpacedWiden(cs[1..], cs[0].End(), hi, hi');
    }
  }

  /** Row i of a tiled table sits where the rows before it end, and holds that stretch of the content. */
  lemma {:induction false} ChunkAt(cs: seq<Chunk>, lo: int, hi: int, i: nat)
    requires Tiles(cs, lo, hi) && i < |cs|
    ensures Tiles(cs, lo, hi) && cs[i].Sound()
    ensures cs[i].offset == lo + |Content(cs[..i])|
    ensures |Content(cs[..i + 1])| == |Content(cs[..i])| + cs[i].size <= |Content(cs)| == hi - lo
    ensures cs[i].bytes == Content(cs)[|Content(cs[..i])|..|Content(cs[..i + 1])|]
  {
    TilesIffFull(cs, lo, hi);
    assert cs[..i + 1] == cs[..i] + [cs[i]];
    ContentConcat(cs[..i], [cs[i]]);
    assert Content([cs[i]]) == cs[i].bytes + Content([]);
    assert cs == cs[..i + 1] + cs[i + 1..];
    ContentConcat(cs[..i + 1], cs[i + 1..]);
    TilesIndex(cs, lo, hi, i);
  }

  lemma {:induction false} TilesIndex(cs: seq<Chunk>, lo: int, hi: int, i: nat)
    requires Tiles(cs, lo, hi) && i < |cs|
    ensures cs[i].Sound() && cs[i].offset == lo + |Content(cs[..i])|
  {
    if i > 0 {
      TilesIndex(cs[1..], cs[0].End(), hi, i - 1);
      assert cs[..i][1..] == cs[1..][..i - 1];
    }
  }

  // ----- queries -----

  /** WHERE byteoffset < limit AND size + byteoffset >= offset */
  function Where(cs: seq<Chunk>, offset: int, limit: int): seq<Chunk> {
    if cs == [] then []
    else if cs[0].offset < limit && cs[0].size + cs[0].offset >= offset then
      [cs[0]] + Where(cs[1..], offset, limit)
    else Where(cs[1..], offset, limit)
  }

  function InsertByOffset(c: Chunk, cs: seq<Chunk>): seq<Chunk> {
    if cs == [] || c.offset <= cs[0].offset then [c] + cs
    else [cs[0]] + InsertByOffset(c, cs[1..])
  }

  /** ORDER BY byteoffset ASC */
  function OrderByOffset(cs: seq<Chunk>): seq<Chunk> {
    if cs == [] then [] else InsertByOffset(cs[0], OrderByOffset(cs[1..]))
  }

  function Select(cs: seq<Chunk>, offset: int, limit: int): seq<Chunk> {
    OrderByOffset(Where(cs, offset, limit))
  }

  /** ORDER BY byteoffset DESC LIMIT 1 */
  function LastChunk(cs: seq<Chunk>): Option<Chunk> {
    var ordered := OrderByOffset(cs);
    if ordered == [] then None else Some(ordered[|ordered| - 1])
  }

  predicate Ascending(cs: seq<Chunk>) {
    forall i, j :: 0 <= i < j < |cs| ==> cs[i].offset <= cs[j].offset
  }

  lemma {:induction false} InsertMeaning(c: Chunk, cs: seq<Chunk>)
    requires Ascending(cs)
    ensures Ascending(InsertByOffset(c, cs))
    ensures multiset(InsertByOffset(c, cs)) == multiset(cs) + multiset{c}
  {
    if cs == [] || c.offset <= cs[0].offset {
      AscendingCons(c, cs);
    } else {
      InsertMeaning(c, cs[1..]);
      var tail := InsertByOffset(c, cs[1..]);
      assert cs == [cs[0]] + cs[1..];
      forall d <- tail ensures cs[0].offset <= d.offset {
        assert d in multiset(tail);
      }
      AscendingCons(cs[0], tail);
    }
  }

  lemma AscendingCons(c: Chunk, cs: seq<Chunk>)
    requires Ascending(cs) && (cs != [] ==> c.offset <= cs[0].offset)
    ensures Ascending([c] + cs)
  {
  }

  lemma {:induction false} OrderMeaning(cs: seq<Chunk>)
    ensures Ascending(OrderByOffset(cs)) && multiset(OrderByOffset(cs)) == multiset(cs)
  {
    if cs != [] {
      OrderMeaning(cs[1..]);
      InsertMeaning(cs[0], OrderByOffset(cs[1..]));
      assert cs == [cs[0]] + cs[1..];
    }
  }

  lemma {:induction false} WhereMeaning(cs: seq<Chunk>, offset: int, limit: int, c: Chunk)
    ensures multiset(Where(cs, offset, limit))[c] ==
            if c.offset < limit && offset <= c.End() then multiset(cs)[c] else 0
  {
    if cs != [] {
      WhereMeaning(cs[1..], offset, limit, c);
      assert cs == [cs[0]] + cs[1..];
    }
  }

  /** The query returns the rows that begin before `limit` and end at `offset` or later, as often as the table holds them, in order. */
  lemma SelectMeaning(cs: seq<Chunk>, offset: int, limit: int)
    ensures Ascending(Select(cs, offset, limit))
    ensures forall c :: multiset(Select(cs, offset, limit))[c] ==
                        if c.offset < limit && offset <= c.End() then multiset(cs)[c] else 0
  {
    OrderMeaning(Where(cs, offset, limit));
    forall c ensures multiset(Select(cs, offset, limit))[c] ==
                     if c.offset < limit && offset <= c.End() then multiset(cs)[c] else 0
    {
      WhereMeaning(cs, offset, limit, c);
    }
  }

  /** The row with the greatest offset, if there is any row. */
  lemma LastChunkMeaning(cs: seq<Chunk>)
    ensures LastChunk(cs).None? <==> cs == []
    ensures LastChunk(cs).Some? ==>
              LastChunk(cs).value in cs && forall c <- cs :: c.offset <= LastChunk(cs).value.offset
  {
    OrderMeaning(cs);
    var ordered := OrderByOffset(cs);
    assert |multiset(ordered)| == |ordered| && |multiset(cs)| == |cs|;
    if ordered != [] {
      assert ordered[|ordered| - 1] in multiset(cs);
      forall c <- cs ensures c.offset <= ordered[|ordered| - 1].offset {
        assert c in multiset(ordered);
        assert c in ordered;
      }
    }
  }

  lemma {:induction false} SpacedIsOrdered(cs: seq<Chunk>, lo: int, hi: int)
    requires Spaced(cs, lo, hi)
    ensures OrderByOffset(cs) == cs
  {
    if cs != [] {
      SpacedIsOrdered(cs[1..], cs[0].End(), hi);
    }
  }

  /**
    The range query over a tiled table answers with a contiguous run of rows that holds every byte
    of [offset, limit); the run may start one row early, since the filter keeps a row ending
    exactly at `offset`.
   */
  lemma {:induction false} WhereIsRun(cs: seq<Chunk>, lo: int, hi: int, offset: int, limit: int)
    returns (a: int, b: int)
    requires Tiles(cs, lo, hi) && offset <= hi
    ensures lo <= a <= Max(lo, offset) && a <= b && Min(limit, hi) <= b <= hi
    ensures Tiles(Where(cs, offset, limit), a, b)
    ensures |Content(cs)| == hi - lo && Content(Where(cs, offset, limit)) == Content(cs)[a - lo..b - lo]
  {
    TilesIffFull(cs, lo, hi);
    SpacedBounds(cs, lo, hi);
    if cs == [] {
      a, b := lo, lo;
    } else {
      var c, rest := cs[0], cs[1..];
      TilesIffFull(rest, c.End(), hi);
      SpacedBounds(rest, c.End(), hi);
      a, b := WhereIsRun(rest, c.End(), hi, offset, limit);
      var tail := Where(rest, offset, limit);
      if limit <= lo {
        WhereBeyond(cs, lo, offset, limit);
        a, b := lo, lo;
      } else if c.End() < offset {
        assert Where(cs, offset, limit) == tail;
        assert Content(cs)[a - lo..b - lo] == Content(rest)[a - c.End()..b - c.End()];
      } else {
        assert Where(cs, offset, limit) == [c] + tail;
        assert a == c.End();
        assert ([c] + tail)[1..] == tail;
        assert Content(cs)[..b - lo] == c.bytes + Content(rest)[..b - c.End()];
        a := lo;
      }
    }
  }

  /** Rows that start at or after the limit are never selected. */
  lemma {:induction false} WhereBeyond(cs: seq<Chunk>, lo: int, offset: int, limit: int)
    requires forall i :: 0 <= i < |cs| ==> lo <= cs[i].offset
    requires limit <= lo
    ensures Where(cs, offset, limit) == []
  {
    if cs != [] {
      WhereBeyond(cs[1..], lo, offset, limit);
    }
  }

  lemma WhereCons(c: Chunk, cs: seq<Chunk>, offset: int, limit: int)
    ensures Where([c] + cs, offset, limit) == Where([c], offset, limit) + Where(cs, offset, limit)
  {
    assert ([c] + cs)[1..] == cs;
  }

  lemma {:induction false} WhereConcat(cs: seq<Chunk>, ds: seq<Chunk>, offset: int, limit: int)
    ensures Where(cs + ds, offset, limit) == Where(cs, offset, limit) + Where(ds, offset, limit)
  {
    if cs == [] {
      assert cs + ds == ds;
    } else {
      hide *;
      var c, rest := cs[0], cs[1..];
      assert cs == [c] + rest && cs + ds == [c] + (rest + ds);
      WhereCons(c, rest, offset, limit);
      WhereCons(c, rest + ds, offset, limit);
      WhereConcat(rest, ds, offset, limit);
      var u, v, w := Where([c], offset, limit), Where(rest, offset, limit), Where(ds, offset, limit);
      assert u + (v + w) == (u + v) + w;
    }
  }

  // ----- snapshots -----

  /** Every row starts at or after `n`. */
  ghost predicate Beyond(cs: seq<Chunk>, n: int) {
    forall i :: 0 <= i < |cs| ==> n <= cs[i].offset
  }

  /** The first k rows hold exactly `content`; whatever follows lies past it. */
  ghost predicate SnapshotAt(cs: seq<Chunk>, content: Bytes, k: int) {
    && 0 <= k <= |cs|
    && Tiles(cs[..k], 0, |content|)
    && Content(cs[..k]) == content
    && Beyond(cs[k..], |content|)
  }

  ghost predicate Snapshot(cs: seq<Chunk>, content: Bytes) {
    exists k :: SnapshotAt(cs, content, k)
  }

  lemma SnapshotOfTiled(cs: seq<Chunk>, size: int)
    requires Tiles(cs, 0, size)
    ensures Snapshot(cs, Content(cs)) && |Content(cs)| == size
  {
    TilesIffFull(cs, 0, size);
    assert cs[..|cs|] == cs;
    assert SnapshotAt(cs, Content(cs), |cs|);
  }

  /** Rows appended later never disturb an earlier snapshot. */
  lemma SnapshotSurvivesGrowth(cs: seq<Chunk>, content: Bytes, more: seq<Chunk>)
    requires Snapshot(cs, content) && Beyond(more, |content|)
    ensures Snapshot(cs + more, content)
  {
    var k :| SnapshotAt(cs, content, k);
    assert (cs + more)[..k] == cs[..k];
    assert (cs + more)[k..] == cs[k..] + more;
    assert SnapshotAt(cs + more, content, k);
  }

  /** What the range query returns on a table that holds a snapshot. */
  lemma SelectIsRun(cs: seq<Chunk>, content: Bytes, offset: int, limit: int)
    returns (a: int, b: int)
    requires Snapshot(cs, content)
    requires 0 <= offset <= limit <= |content|
    ensures 0 <= a <= offset && limit <= b <= |content|
    ensures Tiles(Select(cs, offset, limit), a, b)
    ensures Content(Select(cs, offset, limit)) == content[a..b]
  {
    hide Tiles, Spaced, Content, Where, OrderByOffset;
    var k :| SnapshotAt(cs, content, k);
    a, b := WhereIsRun(cs[..k], 0, |content|, offset, limit);
    assert cs == cs[..k] + cs[k..];
    WhereConcat(cs[..k], cs[k..], offset, limit);
    WhereBeyond(cs[k..], |content|, offset, limit);
    var run := Where(cs, offset, limit);
    assert run == Where(cs[..k], offset, limit);
    TilesIffFull(run, a, b);
    SpacedIsOrdered(run, a, b);
  }
}
