/** The database and the S3 bucket as the handlers see them: one call at a time, any of which may fail. */
module Backend {
  import opened Prelude
  import opened Model
  import opened LogChunks
  import opened Appends
  import opened Store

  class Backend {
    var store: Store
    var bytesUploaded: int      // the statistics counter
    var putAttempts: nat        // S3 uploads ever attempted
    var nextId: nat             // next value of the artifact id sequence
    ghost var log: seq<Change>  // every write made, in order; failed ones leave `Nothing`
    ghost var dbFaults: nat     // database calls that reported failure
    ghost var s3Faults: nat     // S3 calls that reported failure

    /** The store is what the log says, the log contains enabled changes only, and so the invariant holds. */
    ghost predicate Valid()
      reads this
    {
      Legal(EMPTY, log) && store == Replay(EMPTY, log) && Inv(store) && IdsBelow(store, nextId)
    }

    constructor ()
      ensures Valid() && store == EMPTY && log == [] && bytesUploaded == 0 && putAttempts == 0
      ensures dbFaults == 0 && s3Faults == 0
    {
      store, bytesUploaded, putAttempts, nextId := EMPTY, 0, 0, 0;
      log, dbFaults, s3Faults := [], 0, 0;
      new;
      EmptyOk();
    }

    /** A write that is reported as failed may have taken effect all the same. */
    method Commit(ch: Change, fate: Fate) returns (failed: bool)
      requires Valid() && Enabled(store, ch)
      requires ch.NewArtifact? ==> ch.artifact.id < nextId
      modifies this`store, this`log, this`dbFaults
      ensures Valid() && old(log) <= log
      ensures failed <==> !fate.Ok?
      ensures dbFaults == old(dbFaults) + if failed then 1 else 0
      ensures log == old(log) + [if fate.Took() then ch else Nothing]
      ensures store == if fate.Took() then Apply(old(store), ch) else old(store)
    {
      hide Enabled, Apply, Inv, Legal, Replay;
      NothingChanges(store);
      Record(if fate.Took() then ch else Nothing);
      failed := !fate.Reported();
      dbFaults := dbFaults + if failed then 1 else 0;
    }

    /** What a backend holds is what its run so far leads to, so all that holds of runs holds of it. */
    lemma StoreIsAfterLog()
      requires Valid()
      ensures Legal(EMPTY, log) && store == After(log, |log|)
    {
      hide Legal, Replay, Inv, IdsBelow;
      assert log[..|log|] == log;
    }

    static lemma IdsStayBelow(s: Store, ch: Change, n: nat)
      requires IdsBelow(s, n) && (ch.NewArtifact? ==> ch.artifact.id < n)
      ensures IdsBelow(Apply(s, ch), n)
    {
    }

    static lemma NothingChanges(s: Store)
      ensures Enabled(s, Nothing) && Apply(s, Nothing) == s
    {
    }

    /** What a write to S3 leaves behind, be it reported or not. */
    method Leave(ch: Change, took: bool)
      requires Valid() && ch.PutObject? && Enabled(store, ch)
      modifies this`store, this`log
      ensures Valid() && log == old(log) + [if took then ch else Nothing]
      ensures store == if took then Apply(old(store), ch) else old(store)
    {
      hide Enabled, Apply, Inv, Legal, Replay;
      NothingChanges(store);
      Record(if took then ch else Nothing);
    }

    /** One more entry of the log, and its effect. */
    method Record(ch: Change)
      requires Valid() && Enabled(store, ch)
      requires ch.NewArtifact? ==> ch.artifact.id < nextId
      modifies this`store, this`log
      ensures Valid() && log == old(log) + [ch]
      ensures store == Apply(old(store), ch)
    {
      hide Enabled, Apply, Inv, Legal, Replay;
      ReplaySnoc(EMPTY, log, ch);
      ApplyKeepsInv(store, ch);
      IdsStayBelow(store, ch, nextId);
      store := Apply(store, ch);
      log := log + [ch];
    }

    /** A query that only reads; it may fail. */
    method Query() returns (failed: bool)
      modifies this`dbFaults
      ensures dbFaults == old(dbFaults) + if failed then 1 else 0
    {
      failed := *;
      dbFaults := dbFaults + if failed then 1 else 0;
    }

    /** A request to S3 that only reads; it may fail. */
    method Get() returns (failed: bool)
      modifies this`s3Faults
      ensures s3Faults == old(s3Faults) + if failed then 1 else 0
    {
      failed := *;
      s3Faults := s3Faults + if failed then 1 else 0;
    }

    /** SELECT of chunk rows by range; may fail. */
    method ListLogChunksInArtifact(id: nat, offset: int, limit: int) returns (chunks: seq<Chunk>, failed: bool)
      modifies this`dbFaults
      ensures !failed ==> chunks == Select(RowsOf(store, id), offset, limit)
      ensures dbFaults == old(dbFaults) + if failed then 1 else 0
    {
      failed := Query();
      chunks := if failed then [] else Select(RowsOf(store, id), offset, limit);
    }
  }

  predicate IdsBelow(s: Store, n: nat) {
    forall id <- s.entries :: id < n
  }

  function RowsOf(s: Store, id: nat): seq<Chunk> {
    if id in s.entries then s.entries[id].chunks else []
  }

  lemma InvHasRows(s: Store)
    requires Inv(s)
    ensures RowsInv(s)
  {
  }

  /** Every row the database ever returns carries as many bytes as it says. */
  lemma RowsSound(s: Store, id: nat, offset: int, limit: int)
    requires RowsInv(s)
    ensures forall c <- Select(RowsOf(s, id), offset, limit) :: c.Sound()
  {
    hide Select, Spaced, Content;
    if id in s.entries {
      assert EntryInv(s.entries[id]);
      if s.entries[id].origin.Chunked? {
        SpacedBounds(s.entries[id].chunks, 0, s.entries[id].row.size);
      }
    }
    SelectMeaning(RowsOf(s, id), offset, limit);
    forall c <- Select(RowsOf(s, id), offset, limit) ensures c.Sound() {
      assert c in multiset(Select(RowsOf(s, id), offset, limit));
    }
  }
}
