/**
 * The repository facade (MongoDb): typed reads over one entity collection with the
 * soft-delete filter, adding, replacing, soft and hard deletion, and the key/value
 * overlay on the "Keys" collection. The driver becomes an in-memory store: the
 * entity collection `docs` and the Keys collection `keys`.
 *
 * The backend's write acknowledgment is a parameter (`ack`, or `ack(id)` per write in
 * DeleteMany); a write the backend does not acknowledge is modelled as not applied.
 * `Guid.NewGuid()` and `DateTimeOffset.Now` are the parameters `newId` and `now`.
 */
module MongoDbWrapper {
  import opened Wrappers
  import opened Entities
  import opened EntityExtensions
  import opened Collection
  import opened KeyValues
  import opened Batching

  /** The exceptions the wrapper raises (not-found) or lets LINQ raise (more than one match). */
  datatype Error = NotFound | MultipleMatches

  /** DeleteMany processes the matched entities this many at a time. */
  const BatchSize: nat := 50

  /** `results.Count(_ => _)`: the number of `true` entries. */
  function CountTrue(bs: seq<bool>): (n: nat)
    ensures n <= |bs|
  {
    if bs == [] then 0 else (if bs[0] then 1 else 0) + CountTrue(bs[1..])
  }

  /** Counting the acknowledgments collected per entity is counting the acknowledged entities. */
  lemma {:induction false} CountTrueAcked(s: seq<Entity>, results: seq<bool>, ack: Id -> bool)
    requires |results| == |s|
    requires forall k :: 0 <= k < |s| ==> results[k] == ack(s[k].id)
    ensures CountTrue(results) == CountAcked(s, ack)
  {
    if s != [] {
      CountTrueAcked(s[1..], results[1..], ack);
    }
  }

  /**
   * `after` is `before` with the Deleted flag set on every document of `done` whose
   * write was acknowledged, and with every other document as it was.
   */
  ghost predicate SoftDeletedSoFar(before: seq<Entity>, after: seq<Entity>, done: seq<Entity>, ack: Id -> bool) {
    |after| == |before| &&
    forall k :: 0 <= k < |before| ==>
      after[k] == if before[k] in done && ack(before[k].id) then before[k].(deleted := true) else before[k]
  }

  /** While DeleteMany has done only the first `i` matched entities, every later one is still stored as it was. */
  lemma {:induction false} LaterMatchStillStored(before: seq<Entity>, cur: seq<Entity>, entities: seq<Entity>,
                                                 i: nat, p: nat, ack: Id -> bool)
    requires UniqueIds(entities) && i <= p < |entities|
    requires forall e :: e in entities ==> e in before
    requires SoftDeletedSoFar(before, cur, entities[..i], ack)
    ensures entities[p] in cur
  {
    var e := entities[p];
    assert e in entities;
    var k0 :| 0 <= k0 < |before| && before[k0] == e;
    assert cur[k0] == e;
  }

  /** The next batch of matched entities has unique ids and is still stored, live. */
  lemma BatchStillLive(before: seq<Entity>, cur: seq<Entity>, entities: seq<Entity>, i: nat, j: nat, ack: Id -> bool)
    requires UniqueIds(entities) && i <= j <= |entities|
    requires forall e :: e in entities ==> e in before && !e.deleted
    requires SoftDeletedSoFar(before, cur, entities[..i], ack)
    ensures UniqueIds(entities[i..j])
    ensures forall e :: e in entities[i..j] ==> e in cur && !e.deleted
  {
    forall e | e in entities[i..j] ensures e in cur && !e.deleted {
      var r :| 0 <= r < j - i && entities[i..j][r] == e;
      assert entities[i + r] == e;
      LaterMatchStillStored(before, cur, entities, i, i + r, ack);
    }
    forall a, b | 0 <= a < j - i && 0 <= b < j - i && entities[i..j][a].id == entities[i..j][b].id
      ensures a == b
    {
      assert entities[i + a].id == entities[i + b].id;
    }
  }

  /** Once every matched entity is done, each stored document is soft-deleted exactly when it was a live acknowledged match. */
  lemma DeleteManyOutcome(before: seq<Entity>, after: seq<Entity>, entities: seq<Entity>,
                          selector: Entity -> bool, ack: Id -> bool)
    requires forall e :: e in entities <==> e in before && !e.deleted && selector(e)
    requires SoftDeletedSoFar(before, after, entities, ack)
    ensures |after| == |before|
    ensures forall k :: 0 <= k < |after| ==>
      after[k] == if !before[k].deleted && selector(before[k]) && ack(before[k].id)
                  then before[k].(deleted := true) else before[k]
    ensures forall k :: 0 <= k < |after| && selector(before[k]) && ack(before[k].id) ==> after[k].deleted
  {
    forall k | 0 <= k < |after| ensures before[k] in before { }
  }

  /**
   * DeleteMany's progress: `results` holds the acknowledgments of the first `|results|`
   * matched entities, and exactly those have been soft-deleted where acknowledged.
   */
  ghost predicate Progress(before: seq<Entity>, cur: seq<Entity>, entities: seq<Entity>, results: seq<bool>, ack: Id -> bool) {
    |results| <= |entities| &&
    (forall k :: 0 <= k < |results| ==> results[k] == ack(entities[k].id)) &&
    SoftDeletedSoFar(before, cur, entities[..|results|], ack)
  }

  /** A processed batch `[i..j]` extends DeleteMany's progress from `i` to `j`. */
  lemma ProgressStep(before: seq<Entity>, mid: seq<Entity>, after: seq<Entity>, entities: seq<Entity>,
                     results: seq<bool>, acks: seq<bool>, j: nat, ack: Id -> bool)
    requires UniqueIds(entities) && |results| <= j <= |entities|
    requires forall e :: e in entities ==> e in before && !e.deleted
    requires Progress(before, mid, entities, results, ack)
    requires |acks| == j - |results|
    requires forall k :: 0 <= k < |acks| ==> acks[k] == ack(entities[|results| + k].id)
    requires SoftDeletedSoFar(mid, after, entities[|results|..j], ack)
    ensures Progress(before, after, entities, results + acks, ack)
  {
    SoftDeletedCompose(before, mid, after, entities, |results|, j, ack);
  }

  /** Soft-deleting the matched entities `[i..j]` after those before `i` is soft-deleting those before `j`. */
  lemma {:induction false} SoftDeletedCompose(before: seq<Entity>, mid: seq<Entity>, after: seq<Entity>,
                                              entities: seq<Entity>, i: nat, j: nat, ack: Id -> bool)
    requires UniqueIds(entities) && i <= j <= |entities|
    requires forall e :: e in entities ==> e in before && !e.deleted
    requires SoftDeletedSoFar(before, mid, entities[..i], ack)
    requires SoftDeletedSoFar(mid, after, entities[i..j], ack)
    ensures SoftDeletedSoFar(before, after, entities[..j], ack)
  {
    forall k | 0 <= k < |before|
      ensures after[k] == if before[k] in entities[..j] && ack(before[k].id) then before[k].(deleted := true) else before[k]
    {
      var o := before[k];
      if o in entities[..i] {
        var q :| 0 <= q < i && entities[..i][q] == o;
        assert o in entities[..j] by { assert entities[..j][q] == o; }
        assert mid[k] !in entities[i..j];
      } else {
        assert o in entities[..j] <==> o in entities[i..j] by {
          if o in entities[..j] {
            var q :| 0 <= q < j && entities[..j][q] == o;
            assert q >= i;
            assert entities[i..j][q - i] == o;
          }
          if o in entities[i..j] {
            var r :| 0 <= r < j - i && entities[i..j][r] == o;
            assert entities[..j][i + r] == o;
          }
        }
      }
    }
  }

  /** One more soft delete, of the p-th matched entity, extends the done prefix by that entity. */
  lemma {:induction false} SoftDeleteStep(before: seq<Entity>, cur: seq<Entity>, next: seq<Entity>,
                                          entities: seq<Entity>, p: nat, ack: Id -> bool)
    requires UniqueIds(before) && p < |entities|
    requires forall e :: e in entities ==> e in before
    requires SoftDeletedSoFar(before, cur, entities[..p], ack)
    requires |next| == |cur|
    requires forall k :: 0 <= k < |cur| ==>
      next[k] == if ack(entities[p].id) && cur[k].id == entities[p].id then cur[k].(deleted := true) else cur[k]
    ensures SoftDeletedSoFar(before, next, entities[..p + 1], ack)
  {
    var e := entities[p];
    assert entities[..p + 1] == entities[..p] + [e];
    forall k | 0 <= k < |before|
      ensures next[k] == if before[k] in entities[..p + 1] && ack(before[k].id) then before[k].(deleted := true) else before[k]
    {
      assert cur[k].id == before[k].id;
      if before[k] == e {
        assert before[k] in entities[..p + 1];
      } else if before[k].id == e.id {
        SameIdSameEntity(before, before[k], e);
      }
    }
  }

  /** The repository over one entity collection and the Keys collection. */
  class MongoDb {
    var docs: seq<Entity>
    var keys: seq<KeyValue>

    /** Ids are unique and never the default; keys are unique. */
    ghost predicate Valid()
      reads this
    {
      WellFormed(docs) && UniqueKeys(keys)
    }

    /** A repository over a database that already holds `docs` and `keys`. */
    constructor (docs: seq<Entity>, keys: seq<KeyValue>)
      requires WellFormed(docs) && UniqueKeys(keys)
      ensures Valid() && this.docs == docs && this.keys == keys
    {
      this.docs := docs;
      this.keys := keys;
    }

    // ---------------------------------------------------------------- reads

    /** `Query(includeDeleted)`: soft-deleted documents are hidden unless `includeDeleted`. */
    function Query(includeDeleted: bool): (r: seq<Entity>)
      reads this
      ensures includeDeleted ==> r == docs
      ensures forall e :: e in r <==> e in docs && (includeDeleted || !e.deleted)
    {
      if includeDeleted then docs else Filter(docs, IsLive)
    }

    /** `Any(predicate, includeDeleted)`. */
    function Any(pred: Entity -> bool, includeDeleted: bool): (r: bool)
      reads this
      ensures r <==> exists e :: e in docs && (includeDeleted || !e.deleted) && pred(e)
    {
      var m := Filter(Query(includeDeleted), pred);
      assert m != [] ==> m[0] in m;
      m != []
    }

    /** `Any(includeDeleted)`: the overload without a predicate. */
    function AnyAll(includeDeleted: bool): (r: bool)
      reads this
      ensures r <==> exists e :: e in docs && (includeDeleted || !e.deleted)
    {
      var q := Query(includeDeleted);
      assert q != [] ==> q[0] in q;
      q != []
    }

    /** `Count(predicate, includeDeleted)`. */
    function Count(pred: Entity -> bool, includeDeleted: bool): (r: nat)
      reads this
      ensures r <= |Query(includeDeleted)|
      ensures r == 0 <==> !Any(pred, includeDeleted)
      ensures UniqueIds(docs) ==> r == |set e | e in docs && (includeDeleted || !e.deleted) && pred(e)|
    {
      var m := Filter(Query(includeDeleted), pred);
      assert m != [] ==> m[0] in m;
      assert UniqueIds(docs) ==> |m| == |set e | e in docs && (includeDeleted || !e.deleted) && pred(e)| by {
        if UniqueIds(docs) {
          FilterUniqueIds(docs, IsLive);
          FilterUniqueIds(Query(includeDeleted), pred);
          UniqueIdsCardinality(m);
          assert (set e | e in m) == (set e | e in docs && (includeDeleted || !e.deleted) && pred(e));
        }
      }
      |m|
    }

    /** `Count(includeDeleted)`: without `includeDeleted` the soft-deleted documents are not counted. */
    function CountAll(includeDeleted: bool): (r: nat)
      reads this
      ensures r + (if includeDeleted then 0 else |Reject(docs, IsLive)|) == |docs|
    {
      FilterRejectPartition(docs, IsLive);
      |Query(includeDeleted)|
    }

    /** `FirstOrDefault(predicate, includeDeleted)`: some visible match, or the default when there is none. */
    function FirstOrDefault(pred: Entity -> bool, includeDeleted: bool): (r: Option<Entity>)
      reads this
      ensures r.Some? ==> r.value in docs && pred(r.value) && (includeDeleted || !r.value.deleted)
      ensures r.None? <==> !Any(pred, includeDeleted)
    {
      var m := Filter(Query(includeDeleted), pred);
      if m == [] then None else assert m[0] in m; Some(m[0])
    }

    /** `SingleOrDefault(predicate, includeDeleted)`: fails when more than one visible document matches. */
    function SingleOrDefault(pred: Entity -> bool, includeDeleted: bool): (r: Result<Option<Entity>, Error>)
      reads this
      ensures r.Failure? <==> Count(pred, includeDeleted) > 1
      ensures r.Failure? ==> r.error == MultipleMatches
      ensures r == Success(None) <==> Count(pred, includeDeleted) == 0
      ensures r.Success? && r.value.Some? ==>
        var e := r.value.value;
        e in docs && pred(e) && (includeDeleted || !e.deleted) &&
        forall d :: d in docs && (includeDeleted || !d.deleted) && pred(d) ==> d == e
    {
      var m := Filter(Query(includeDeleted), pred);
      if |m| > 1 then Failure(MultipleMatches)
      else if m == [] then Success(None)
      else
        assert m[0] in m && forall d :: d in m ==> d == m[0];
        Success(Some(m[0]))
    }

    /**
     * `Get(id)`, which is `FirstOrDefault(_ => _.Id == id)` with `includeDeleted` left false:
     * it finds the entity only while it is not soft-deleted.
     */
    function GetById(id: Id): (r: Option<Entity>)
      reads this
      ensures r.Some? ==> r.value in docs && r.value.id == id && !r.value.deleted
      ensures r.None? <==> forall e :: e in docs && e.id == id ==> e.deleted
    {
      FirstOrDefault((e: Entity) => e.id == id, false)
    }

    /** `Get(predicate, includeDeleted)`: every visible match. */
    function GetWhere(pred: Entity -> bool, includeDeleted: bool): (r: seq<Entity>)
      reads this
      ensures forall e :: e in r <==> e in docs && (includeDeleted || !e.deleted) && pred(e)
      ensures |r| == Count(pred, includeDeleted)
      ensures UniqueIds(docs) ==> UniqueIds(r)
    {
      assert UniqueIds(docs) ==> UniqueIds(Filter(Query(includeDeleted), pred)) by {
        if UniqueIds(docs) {
          FilterUniqueIds(docs, IsLive);
          FilterUniqueIds(Query(includeDeleted), pred);
        }
      }
      Filter(Query(includeDeleted), pred)
    }

    /** `Get(includeDeleted)`: the whole (filtered) collection. */
    function GetAll(includeDeleted: bool): (r: seq<Entity>)
      reads this
      ensures r == Query(includeDeleted)
      ensures |r| == CountAll(includeDeleted)
    {
      Query(includeDeleted)
    }

    // --------------------------------------------------------------- writes

    /** `Add(entity)`: assigns a fresh id and the current time to the caller's object and inserts it. */
    method Add(entity: EntityObject, newId: Id, now: Timestamp)
      requires Valid()
      requires newId != DefaultId && !HasId(docs, newId)
      modifies this, entity
      ensures Valid() && keys == old(keys)
      ensures entity.id == newId && entity.added == now
      ensures entity.deleted == old(entity.deleted) && entity.body == old(entity.body)
      ensures docs == old(docs) + [entity.Value()]
    {
      entity.id := newId;
      entity.added := now;
      AppendFreshId(docs, entity.Value());
      docs := docs + [entity.Value()];
    }

    /**
     * `Replace(entity)`: an entity with the default id is added; otherwise the stored
     * Added/Deleted values are copied onto the caller's object and the stored document
     * is replaced by it. An id `Get(id)` does not find (absent or soft-deleted) fails.
     */
    method Replace(entity: EntityObject, newId: Id, now: Timestamp, ack: bool) returns (r: Result<bool, Error>)
      requires Valid()
      requires newId != DefaultId && !HasId(docs, newId)
      modifies this, entity
      ensures Valid() && keys == old(keys)
      ensures old(entity.id) == DefaultId ==>
        r == Success(true) && entity.id == newId && entity.added == now &&
        entity.deleted == old(entity.deleted) && entity.body == old(entity.body) &&
        docs == old(docs) + [entity.Value()]
      ensures old(entity.id) != DefaultId && old(GetById(entity.id)).None? ==>
        r == Failure(NotFound) && docs == old(docs) && unchanged(entity)
      ensures old(entity.id) != DefaultId && old(GetById(entity.id)).Some? ==>
        r == Success(ack) && entity.id == old(entity.id) && entity.body == old(entity.body) &&
        entity.added == old(GetById(entity.id)).value.added &&
        entity.deleted == old(GetById(entity.id)).value.deleted && !entity.deleted &&
        |docs| == |old(docs)| &&
        forall k :: 0 <= k < |docs| ==>
          docs[k] == if ack && old(docs)[k].id == entity.id then entity.Value() else old(docs)[k]
    {
      if entity.id == DefaultId {
        Add(entity, newId, now);
        return Success(true);
      }
      var found := GetById(entity.id);
      if found.None? {
        return Failure(NotFound);
      }
      var stored := found.value;
      entity.deleted := stored.deleted;
      entity.added := stored.added;
      if ack {
        ReplaceOneUnique(docs, entity.id, entity.Value());
        ReplaceKeepsWellFormed(docs, entity.id, entity.Value());
        docs := ReplaceOne(docs, entity.id, entity.Value());
      }
      r := Success(ack);
    }

    /**
     * `DeleteRestoreInternal(id, state)`: finds the entity with `Get(id)` and writes it
     * back with Deleted = `state`; fails when `Get(id)` finds nothing.
     */
    method DeleteRestoreInternal(id: Id, state: bool, ack: bool) returns (r: Result<bool, Error>)
      requires Valid()
      modifies this
      ensures Valid() && keys == old(keys) && |docs| == |old(docs)|
      ensures old(GetById(id)).None? ==> r == Failure(NotFound) && docs == old(docs)
      ensures old(GetById(id)).Some? ==> r == Success(ack)
      ensures forall k :: 0 <= k < |docs| ==>
        docs[k] == if r.Success? && ack && old(docs)[k].id == id then old(docs)[k].(deleted := state) else old(docs)[k]
    {
      var found := GetById(id);
      if found.None? {
        return Failure(NotFound);
      }
      var entity := found.value.(deleted := state);
      if ack {
        forall k | 0 <= k < |docs| && docs[k].id == id ensures docs[k] == found.value {
          SameIdSameEntity(docs, docs[k], found.value);
        }
        ReplaceOneUnique(docs, id, entity);
        ReplaceKeepsWellFormed(docs, id, entity);
        docs := ReplaceOne(docs, id, entity);
      }
      r := Success(ack);
    }

    /** `Delete(id)`: soft delete; a soft-deleted or absent id fails with NotFound. */
    method Delete(id: Id, ack: bool) returns (r: Result<bool, Error>)
      requires Valid()
      modifies this
      ensures Valid() && keys == old(keys) && |docs| == |old(docs)|
      ensures old(GetById(id)).None? ==> r == Failure(NotFound) && docs == old(docs)
      ensures old(GetById(id)).Some? ==> r == Success(ack)
      ensures (exists e :: e in old(docs) && e.id == id && e.deleted) ==> r == Failure(NotFound)
      ensures forall k :: 0 <= k < |docs| ==>
        docs[k] == if r.Success? && ack && old(docs)[k].id == id then old(docs)[k].(deleted := true) else old(docs)[k]
      ensures r.Success? && ack ==> IsNullOrDeleted(GetById(id))
    {
      SoftDeletedIsNotFound(id);
      r := DeleteRestoreInternal(id, true, ack);
    }

    /**
     * `Restore(id)`: writes Deleted = false through `Get(id)`, which never sees a
     * soft-deleted entity, so restoring a soft-deleted id always fails with NotFound.
     */
    method Restore(id: Id, ack: bool) returns (r: Result<bool, Error>)
      requires Valid()
      modifies this
      ensures Valid() && keys == old(keys) && |docs| == |old(docs)|
      ensures old(GetById(id)).None? ==> r == Failure(NotFound) && docs == old(docs)
      ensures old(GetById(id)).Some? ==> r == Success(ack)
      ensures (exists e :: e in old(docs) && e.id == id && e.deleted) ==> r == Failure(NotFound)
      ensures forall k :: 0 <= k < |docs| ==>
        docs[k] == if r.Success? && ack && old(docs)[k].id == id then old(docs)[k].(deleted := false) else old(docs)[k]
      ensures r.Success? ==> GetById(id).Some? && !IsNullOrDeleted(GetById(id))
    {
      SoftDeletedIsNotFound(id);
      r := DeleteRestoreInternal(id, false, ack);
    }

    /** A soft-deleted id is invisible to `Get(id)`. */
    lemma SoftDeletedIsNotFound(id: Id)
      requires UniqueIds(docs)
      ensures (exists e :: e in docs && e.id == id && e.deleted) ==> GetById(id).None?
    {
      if exists e :: e in docs && e.id == id && e.deleted {
        var e :| e in docs && e.id == id && e.deleted;
        forall d | d in docs && d.id == id ensures d.deleted {
          SameIdSameEntity(docs, d, e);
        }
      }
    }

    /** The step of a batch: `DeleteRestoreInternal(batch[j].Id, true)` after the first `j` of the batch are done. */
    method SoftDeleteNext(ghost before: seq<Entity>, batch: seq<Entity>, j: nat, ack: Id -> bool) returns (written: bool)
      requires Valid() && UniqueIds(before) && UniqueIds(batch) && j < |batch|
      requires forall e :: e in batch ==> e in before && !e.deleted
      requires SoftDeletedSoFar(before, docs, batch[..j], ack)
      modifies this
      ensures Valid() && keys == old(keys)
      ensures written == ack(batch[j].id)
      ensures SoftDeletedSoFar(before, docs, batch[..j + 1], ack)
    {
      var e := batch[j];
      LaterMatchStillStored(before, docs, batch, j, j, ack);
      ghost var cur := docs;
      var r := DeleteRestoreInternal(e.id, true, ack(e.id));
      assert r.Success?;
      SoftDeleteStep(before, cur, docs, batch, j, ack);
      written := r.value;
    }

    /**
     * One batch of DeleteMany, `Task.WhenAll(toProcess.Select(_ => DeleteRestoreInternal(_.Id, true)))`,
     * run one entity after the other: every entity of the batch is soft-deleted where the backend
     * acknowledges the write, and the acknowledgments come back in batch order.
     */
    method SoftDeleteBatch(batch: seq<Entity>, ack: Id -> bool) returns (acks: seq<bool>)
      requires Valid()
      requires UniqueIds(batch)
      requires forall e :: e in batch ==> e in docs && !e.deleted
      modifies this
      ensures Valid() && keys == old(keys)
      ensures |acks| == |batch| && forall k :: 0 <= k < |batch| ==> acks[k] == ack(batch[k].id)
      ensures SoftDeletedSoFar(old(docs), docs, batch, ack)
    {
      acks := [];
      var j := 0;
      while j < |batch|
        invariant 0 <= j <= |batch| && |acks| == j
        invariant Valid() && keys == old(keys)
        invariant forall k :: 0 <= k < j ==> acks[k] == ack(batch[k].id)
        invariant SoftDeletedSoFar(old(docs), docs, batch[..j], ack)
      {
        var written := SoftDeleteNext(old(docs), batch, j, ack);
        acks := acks + [written];
        j := j + 1;
      }
      assert batch[..j] == batch;
    }

    /** The batch of DeleteMany cut at `i`, soft-deleted after the first `i` matched entities are done. */
    method DeleteBatchAt(ghost before: seq<Entity>, entities: seq<Entity>, i: nat, toProcess: seq<Entity>,
                         ghost results: seq<bool>, ack: Id -> bool) returns (acks: seq<bool>)
      requires Valid() && UniqueIds(before) && UniqueIds(entities)
      requires forall e :: e in entities ==> e in before && !e.deleted
      requires i < |entities| && |results| == i && toProcess == Take(Skip(entities, i), BatchSize)
      requires Progress(before, docs, entities, results, ack)
      modifies this
      ensures Valid() && keys == old(keys)
      ensures |results + acks| == if i + BatchSize < |entities| then i + BatchSize else |entities|
      ensures Progress(before, docs, entities, results + acks, ack)
    {
      ghost var j := if i + BatchSize < |entities| then i + BatchSize else |entities|;
      TakeSkipSlice(entities, BatchSize, i);
      BatchStillLive(before, docs, entities, i, j, ack);
      ghost var mid := docs;
      acks := SoftDeleteBatch(toProcess, ack);
      ProgressStep(before, mid, docs, entities, results, acks, j, ack);
    }

    /**
     * The loop of DeleteMany: `Skip(i).Take(BatchSize)` for `i = 0, BatchSize, ...`, each batch
     * soft-deleted before the next starts, the acknowledgments appended to `results` in order.
     */
    method DeleteInBatches(entities: seq<Entity>, ack: Id -> bool) returns (results: seq<bool>, ghost batches: seq<seq<Entity>>)
      requires Valid()
      requires UniqueIds(entities)
      requires forall e :: e in entities ==> e in docs && !e.deleted
      modifies this
      ensures Valid() && keys == old(keys)
      ensures |results| == |entities| && forall k :: 0 <= k < |entities| ==> results[k] == ack(entities[k].id)
      ensures SoftDeletedSoFar(old(docs), docs, entities, ack)
      ensures batches == Batches(entities, BatchSize) && Flatten(batches) == entities
    {
      ghost var visited: seq<seq<Entity>> := [];
      results := [];
      var i: nat := 0;
      while i < |entities|
        invariant Valid() && keys == old(keys)
        invariant i < |entities| ==> |results| == i
        invariant i >= |entities| ==> |results| == |entities|
        invariant Progress(old(docs), docs, entities, results, ack)
        invariant visited + Batches(Skip(entities, i), BatchSize) == Batches(entities, BatchSize)
      {
        var toProcess := Take(Skip(entities, i), BatchSize);
        BatchesAdvance(entities, BatchSize, i, visited);
        var acks := DeleteBatchAt(old(docs), entities, i, toProcess, results, ack);
        results := results + acks;
        visited := visited + [toProcess];
        i := i + BatchSize;
      }
      assert entities[..|results|] == entities;
      assert Skip(entities, i) == [];
      batches := visited;
      BatchesCover(entities, BatchSize);
    }

    /**
     * `DeleteMany(selector)`: soft-deletes the live matches in batches of BatchSize and
     * returns how many of those writes were acknowledged.
     */
    method DeleteMany(selector: Entity -> bool, ack: Id -> bool) returns (n: nat)
      requires Valid()
      modifies this
      ensures Valid() && keys == old(keys) && |docs| == |old(docs)|
      ensures forall k :: 0 <= k < |docs| ==>
        docs[k] == if !old(docs)[k].deleted && selector(old(docs)[k]) && ack(old(docs)[k].id)
                   then old(docs)[k].(deleted := true) else old(docs)[k]
      ensures n == CountAcked(old(GetWhere(selector, false)), ack)
      ensures n <= old(Count(selector, false))
      ensures (forall id :: ack(id)) ==> n == old(Count(selector, false))
      ensures forall k :: 0 <= k < |docs| && selector(old(docs)[k]) && ack(old(docs)[k].id) ==> docs[k].deleted
    {
      var entities := GetWhere(selector, false);
      var results, _ := DeleteInBatches(entities, ack);
      DeleteManyOutcome(old(docs), docs, entities, selector, ack);
      CountTrueAcked(entities, results, ack);
      n := CountTrue(results);
    }

    /** `DeleteHard(id)`: removes the document with that id, soft-deleted or not; zero matches is no error. */
    method DeleteHard(id: Id, ack: bool) returns (r: bool)
      requires Valid()
      modifies this
      ensures Valid() && keys == old(keys)
      ensures r == ack
      ensures ack ==> forall e :: e in docs <==> e in old(docs) && e.id != id
      ensures |docs| == |old(docs)| - (if ack && HasId(old(docs), id) then 1 else 0)
      ensures !ack ==> docs == old(docs)
    {
      if ack {
        DeleteOneUnique(docs, id);
        DeleteOneKeepsWellFormed(docs, id);
        docs := DeleteOne(docs, id);
      }
      r := ack;
    }

    /** `DeleteHardMany(selector)`: removes every match, soft-deleted or not, and returns how many. */
    method DeleteHardMany(selector: Entity -> bool) returns (n: nat)
      requires Valid()
      modifies this
      ensures Valid() && keys == old(keys)
      ensures docs == Reject(old(docs), selector)
      ensures forall e :: e in docs <==> e in old(docs) && !selector(e)
      ensures n == |old(docs)| - |docs|
      ensures n == |Filter(old(docs), selector)|
    {
      FilterRejectPartition(docs, selector);
      RejectKeepsWellFormed(docs, selector);
      var remaining := Reject(docs, selector);
      n := |docs| - |remaining|;
      docs := remaining;
    }

    // ------------------------------------------------------ key/value overlay

    /** `GetKey(key)`: the record stored under the key, if any. */
    function GetKey(key: string): (r: Option<KeyValue>)
      reads this
      ensures r.Some? ==> r.value in keys && r.value.key == key
      ensures r.None? <==> forall kv :: kv in keys ==> kv.key != key
    {
      FindKey(keys, key)
    }

    /**
     * `SetKeyValue(key, value)`: an existing key is deleted when `value` is the type's
     * default (`zero`) and updated otherwise; an absent key is inserted, even with the default.
     */
    method SetKeyValue<V(==)>(key: string, value: V, zero: V, serialize: V -> string)
      requires Valid()
      modifies this
      ensures Valid() && docs == old(docs)
      ensures keys == SetKeyValueEffect(old(keys), key, value == zero, serialize(value))
      ensures GetKey(key) == if old(GetKey(key)).Some? && value == zero then None else Some(KeyValue(key, serialize(value)))
      ensures forall other :: other != key ==> GetKey(other) == old(GetKey(other))
      ensures forall deserialize: string -> V {:trigger GetKeyValue(key, zero, deserialize)} ::
        deserialize(serialize(value)) == value ==> GetKeyValue(key, zero, deserialize) == value
    {
      SetKeyValueKeepsOthers(keys, key, value == zero, serialize(value));
      SetKeyValueStores(keys, key, value == zero, serialize(value));
      if HasKey(keys, key) {
        if value == zero {
          keys := DeleteKey(keys, key);
        } else {
          keys := UpdateValue(keys, key, serialize(value));
        }
      } else {
        keys := keys + [KeyValue(key, serialize(value))];
      }
    }

    /** `GetKeyValue(key)`: the stored value deserialized, or the default when the key is absent. */
    function GetKeyValue<V>(key: string, zero: V, deserialize: string -> V): (r: V)
      reads this
      ensures GetKey(key).None? ==> r == zero
      ensures GetKey(key).Some? ==> r == deserialize(GetKey(key).value.value)
    {
      match GetKey(key)
      case Some(kv) => deserialize(kv.value)
      case None => zero
    }
  }
}
