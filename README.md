# MongoDB.Wrapper in Dafny

This is a verified model of the repository facade of MongoDB.Wrapper (`MongoDb` in
`MongoDB.Wrapper/MongoDb.cs`, and the `IsNullOrDeleted` extension). Each entity collection
holds documents that carry an id, the time they were added and a soft-delete flag.

The facade offers:

- reads that hide soft-deleted documents unless `includeDeleted` is set;
- adding, which assigns a fresh id and the current time;
- replacing, which keeps the stored `Added` and `Deleted` values;
- soft delete and restore by id, and batched soft delete by predicate;
- hard delete by id or by predicate;
- a key/value overlay on a separate "Keys" collection.

The document database becomes an in-memory store: the class `MongoDbWrapper.MongoDb` with
two fields.

- `docs`: the entity collection, a list in natural order.
- `keys`: the Keys collection, a list of key/value records.

The store's invariant `Valid()` says three things:

- ids are unique, which is the `_id` index;
- no document has the default id;
- keys are unique.

Every writing method is proved to keep that invariant.

The driver's "One" operations act on the first matching document. These are
`ReplaceOneAsync`, `DeleteOneAsync`, `UpdateOneAsync` and `FirstOrDefaultAsync`. While the
invariant holds, the first match is the only one. This is proved: `ReplaceOneUnique`,
`DeleteOneUnique` and `FindKeyUnique`.

## Module layout

- `wrappers.dfy`: `Option` (null or default results) and `Result` (a thrown exception becomes `Failure`).
- `entities.dfy`: `Entity`, the stored document. `EntityObject` is the caller's object, which `Add` and `Replace` change in place.
- `extensions.dfy`: `IsNullOrDeleted`.
- `collection.dfy`: the driver operations on an entity collection (LINQ `Where`, `ReplaceOne`, `DeleteOne`, `DeleteMany`) and their lemmas.
- `keyvalues.dfy`: the Keys collection and the three writes `SetKeyValue` chooses between.
- `batching.dfy`: `Skip`/`Take`, and the proof that DeleteMany's batches cover the matched list exactly once, in order.
- `mongodb.dfy`: the facade.

## Where the model follows the code rather than the documentation

- **Get(id) hides soft-deleted entities.** `Get(id)` is `FirstOrDefault(_ => _.Id == id)` with `includeDeleted` left false (MongoDb.cs:88-91). So `Delete`, `Restore` and `Replace` fail with NotFound on a soft-deleted id. A by-id lookup that also saw deleted records would let them succeed; this one does not.
- **Restore cannot restore.** `Restore` goes through `Get(id)`, so it never reverts a soft delete. The interface comment (IMongoDb.cs:117-122) says it does. `MongoDb.Restore` states this behaviour, and `MongoDb.Restore` and `MongoDb.Delete` both state that a soft-deleted id gives `Failure(NotFound)`.
- **DeleteMany only finds live entities.** It collects its matches with `Get(selector)`, whose `includeDeleted` defaults to false (MongoDb.cs:129). Entities that are already soft-deleted are neither matched nor counted. Matching over the unfiltered set would count them too; this code does not.
- **SetKeyValue inserts the default value.** On an absent key it inserts the serialized value even when the value is the type's default (MongoDb.cs:182-183). It does not skip the write. What `GetKeyValue` returns afterwards is the same either way: `SetKeyValue`'s round-trip postcondition covers both paths.
- **DeleteHard and DeleteHardMany never fail.** They return the acknowledgment, or the deleted count, even when nothing matched (MongoDb.cs:158-166). The interface comment (IMongoDb.cs:125) says DeleteHard throws.

## Model

| member | source | states |
|---|---|---|
| Entities.EntityObject.constructor | MongoDB.Wrapper/Entity.cs:6-13 | a new entity object has the default id, the default time and is not deleted |
| EntityExtensions.IsNullOrDeleted | MongoDB.Wrapper/Extensions/IEntityExtensions.cs:7-10 | true for null, true for a soft-deleted entity, false for a live entity |
| Collection.IsLive | MongoDB.Wrapper/MongoDb.cs:45 | the `!_.Deleted` filter of `Query`: a document passes exactly when `IsNullOrDeleted` is false for it |
| Collection.Filter | MongoDB.Wrapper/MongoDb.cs:44-45 | LINQ `Where`: keeps exactly the documents that satisfy the predicate, never more of them than there were |
| Collection.Reject | MongoDB.Wrapper/MongoDb.cs:163-166 | what `DeleteManyAsync(selector)` leaves: exactly the documents that fail the selector |
| Collection.CountAcked | MongoDB.Wrapper/MongoDb.cs:136-140 | the number of acknowledged writes is at most the number of writes, and equal to it when every write is acknowledged |
| Collection.ReplaceOne | MongoDB.Wrapper/MongoDb.cs:116 | `ReplaceOneAsync` by id keeps the length and every document with another id; with no match nothing changes |
| Collection.DeleteOne | MongoDB.Wrapper/MongoDb.cs:160 | `DeleteOneAsync` by id removes one document when the id is present and none otherwise; every document with another id stays, and nothing new appears |
| Collection.SameIdSameEntity | MongoDB.Wrapper/Abstractions/IEntity.cs:12-13 | under the unique `_id` key, two stored documents with the same id are the same document |
| Collection.FilterUniqueIds | MongoDB.Wrapper/MongoDb.cs:93-96 | a filtered result of a collection with unique ids has unique ids |
| Collection.UniqueIdsCardinality | MongoDB.Wrapper/MongoDb.cs:68-71 | a list with unique ids holds as many documents as the set of them, which turns Count into the number of distinct matches |
| Collection.FilterRejectPartition | MongoDB.Wrapper/MongoDb.cs:163-166 | matched and unmatched documents add up to the collection, which is how DeleteHardMany's count is derived |
| Collection.ReplaceOneUnique | MongoDB.Wrapper/MongoDb.cs:116 | with unique ids, ReplaceOne replaces exactly the document with that id, at its position |
| Collection.DeleteOneUnique | MongoDB.Wrapper/MongoDb.cs:160 | with unique ids, DeleteOne by id equals removing every document with that id |
| Collection.AppendFreshId | MongoDB.Wrapper/MongoDb.cs:50-56 | inserting a document with a fresh, non-default id keeps the collection well formed |
| Collection.ReplaceKeepsWellFormed | MongoDB.Wrapper/MongoDb.cs:116 | replacing a document by one with the same id keeps the collection well formed |
| Collection.RejectKeepsWellFormed | MongoDB.Wrapper/MongoDb.cs:165 | deleting every match keeps the collection well formed |
| Collection.DeleteOneKeepsWellFormed | MongoDB.Wrapper/MongoDb.cs:160 | deleting one document keeps the collection well formed |
| KeyValues.HasKey | MongoDB.Wrapper/MongoDb.cs:175 | `AnyAsync(_ => _.Key == key)`: true exactly when some stored record has the key |
| KeyValues.FindKey | MongoDB.Wrapper/MongoDb.cs:168-171 | `FirstOrDefaultAsync(_ => _.Key == key)`: a result is a stored record with that key, and there is none exactly when no record has the key |
| KeyValues.UpdateValue | MongoDB.Wrapper/MongoDb.cs:180 | `UpdateOneAsync` keeps the length and every key, and every record with another key |
| KeyValues.DeleteKey | MongoDB.Wrapper/MongoDb.cs:178 | `DeleteOneAsync` removes one record when the key is present and none otherwise; every record with another key stays, and nothing new appears |
| KeyValues.SetKeyValueEffect | MongoDB.Wrapper/MongoDb.cs:175-183 | SetKeyValue's choice of write: an absent key adds one record, an existing key set to the default loses one, any other value keeps the count; every record with another key stays |
| KeyValues.FindKeyUnique | MongoDB.Wrapper/MongoDb.cs:168-171 | with unique keys, GetKey finds exactly the stored record with the key |
| KeyValues.DeleteKeyUnique | MongoDB.Wrapper/MongoDb.cs:177-178 | deleting a key keeps keys unique and leaves no record with that key |
| KeyValues.DeleteKeyFacts | MongoDB.Wrapper/MongoDb.cs:177-178 | deleting a key keeps keys unique, removes the key and leaves every other key's lookup as it was |
| KeyValues.UpdateValueStores | MongoDB.Wrapper/MongoDb.cs:179-180 | updating a present key keeps keys unique, and the key then looks up to the new serialized value |
| KeyValues.UpdateValueFacts | MongoDB.Wrapper/MongoDb.cs:179-180 | as UpdateValueStores, and every other key's lookup is unchanged |
| KeyValues.InsertKeyFacts | MongoDB.Wrapper/MongoDb.cs:182-183 | inserting an absent key keeps keys unique, stores the record and leaves every other key's lookup unchanged |
| KeyValues.SetKeyValueKeepsOthers | MongoDB.Wrapper/MongoDb.cs:173-184 | SetKeyValue keeps keys unique and never changes another key |
| KeyValues.SetKeyValueStores | MongoDB.Wrapper/MongoDb.cs:173-184 | after SetKeyValue the key holds nothing when an existing key was set to the default, and the serialized value in every other case |
| Batching.Skip | MongoDB.Wrapper/MongoDb.cs:134 | `Skip(n)` drops `n` elements, or all of them when there are fewer |
| Batching.Take | MongoDB.Wrapper/MongoDb.cs:134 | `Take(n)` keeps `n` elements, or all of them when there are fewer |
| Batching.Batches | MongoDB.Wrapper/MongoDb.cs:132-135 | the loop's batches are non-empty and at most the batch size, and there are none exactly when the list is empty |
| Batching.BatchesCover | MongoDB.Wrapper/MongoDb.cs:132-138 | the batches laid end to end are the matched list: every match is processed once, in order |
| MongoDbWrapper.CountTrue | MongoDB.Wrapper/MongoDb.cs:140 | `results.Count(_ => _)` is at most the number of results |
| MongoDbWrapper.CountTrueAcked | MongoDB.Wrapper/MongoDb.cs:136-140 | counting the `true` results is counting the matches whose write was acknowledged |
| MongoDbWrapper.DeleteManyOutcome | MongoDB.Wrapper/MongoDb.cs:127-141 | once every match is processed, a document is soft-deleted exactly when it was a live, acknowledged match, and every other document is untouched |
| MongoDbWrapper.MongoDb.constructor | MongoDB.Wrapper/MongoDb.cs:18-28 | the facade over a database that already holds a well-formed collection and Keys collection |
| MongoDbWrapper.MongoDb.Query | MongoDB.Wrapper/MongoDb.cs:40-48 | with `includeDeleted` everything, otherwise exactly the live documents |
| MongoDbWrapper.MongoDb.Any | MongoDB.Wrapper/MongoDb.cs:58-61 | true exactly when some visible document satisfies the predicate |
| MongoDbWrapper.MongoDb.AnyAll | MongoDB.Wrapper/MongoDb.cs:63-66 | true exactly when some document is visible |
| MongoDbWrapper.MongoDb.Count | MongoDB.Wrapper/MongoDb.cs:68-71 | at most the number of visible documents, zero exactly when Any is false, and with unique ids exactly the number of distinct visible matches |
| MongoDbWrapper.MongoDb.CountAll | MongoDB.Wrapper/MongoDb.cs:73-76 | the whole collection without `includeDeleted` minus the soft-deleted ones |
| MongoDbWrapper.MongoDb.FirstOrDefault | MongoDB.Wrapper/MongoDb.cs:78-81 | a result is a visible match, and there is none exactly when nothing visible matches |
| MongoDbWrapper.MongoDb.SingleOrDefault | MongoDB.Wrapper/MongoDb.cs:83-86 | fails with MultipleMatches exactly when more than one visible document matches; otherwise returns the only match, or none when nothing matches |
| MongoDbWrapper.MongoDb.GetById | MongoDB.Wrapper/MongoDb.cs:88-91 | a result is the live document with that id, and there is none exactly when every document with that id is soft-deleted (or there is none) |
| MongoDbWrapper.MongoDb.GetWhere | MongoDB.Wrapper/MongoDb.cs:93-96 | exactly the visible matches, as many as Count, with unique ids |
| MongoDbWrapper.MongoDb.GetAll | MongoDB.Wrapper/MongoDb.cs:98-101 | the visible collection, as many documents as CountAll |
| MongoDbWrapper.MongoDb.Add | MongoDB.Wrapper/MongoDb.cs:50-56 | the object gets the fresh id and the current time in place, and is appended; the invariant holds |
| MongoDbWrapper.MongoDb.Replace | MongoDB.Wrapper/MongoDb.cs:103-120 | three cases: a default id is added; a missing or soft-deleted id fails with NotFound and changes nothing; otherwise the stored Added/Deleted values are copied onto the object, and the document with that id becomes the object when acknowledged |
| MongoDbWrapper.MongoDb.DeleteRestoreInternal | MongoDB.Wrapper/MongoDb.cs:148-156 | NotFound when Get(id) finds nothing; otherwise returns the acknowledgment and, when acknowledged, sets the Deleted flag of just that document |
| MongoDbWrapper.MongoDb.Delete | MongoDB.Wrapper/MongoDb.cs:122-125 | soft delete through DeleteRestoreInternal; a soft-deleted id fails with NotFound; after an acknowledged delete Get(id) finds nothing |
| MongoDbWrapper.MongoDb.Restore | MongoDB.Wrapper/MongoDb.cs:143-146 | Deleted = false through DeleteRestoreInternal; a soft-deleted id fails with NotFound; on success the entity is still found by Get(id) |
| MongoDbWrapper.MongoDb.SoftDeletedIsNotFound | MongoDB.Wrapper/MongoDb.cs:148-152 | Get(id) finds nothing for a soft-deleted id, so DeleteRestoreInternal fails on it |
| MongoDbWrapper.MongoDb.SoftDeleteNext | MongoDB.Wrapper/MongoDb.cs:137 | one `DeleteRestoreInternal(_.Id, true)` of a batch returns that entity's acknowledgment and extends the soft-deleted prefix by it |
| MongoDbWrapper.MongoDb.SoftDeleteBatch | MongoDB.Wrapper/MongoDb.cs:134-137 | a batch returns its acknowledgments in batch order, and exactly its acknowledged entities end soft-deleted |
| MongoDbWrapper.MongoDb.DeleteBatchAt | MongoDB.Wrapper/MongoDb.cs:132-137 | the batch cut at `i` extends the processed prefix of the matches to `i + 50`, or to the end |
| MongoDbWrapper.MongoDb.DeleteInBatches | MongoDB.Wrapper/MongoDb.cs:132-138 | the loop returns one acknowledgment per match, in order, and soft-deletes exactly the acknowledged matches; the batches it cuts are `Skip(i).Take(50)` for `i = 0, 50, ...`, and laid end to end they are the matched list |
| MongoDbWrapper.MongoDb.DeleteMany | MongoDB.Wrapper/MongoDb.cs:127-141 | every live, acknowledged match is soft-deleted and nothing else changes; returns the number of acknowledged matches, which is at most the match count and equal to it when every write is acknowledged |
| MongoDbWrapper.MongoDb.DeleteHard | MongoDB.Wrapper/MongoDb.cs:158-161 | returns the acknowledgment; when acknowledged, exactly the document with that id is gone, soft-deleted or not; zero matches is no error |
| MongoDbWrapper.MongoDb.DeleteHardMany | MongoDB.Wrapper/MongoDb.cs:163-166 | removes exactly the matches, soft-deleted or not, and returns how many were removed |
| MongoDbWrapper.MongoDb.GetKey | MongoDB.Wrapper/MongoDb.cs:168-171 | a result is the stored record with the key, and there is none exactly when no record has the key |
| MongoDbWrapper.MongoDb.SetKeyValue | MongoDB.Wrapper/MongoDb.cs:173-184 | an existing key is deleted for the default value and updated otherwise, and an absent key is inserted; other keys are unchanged; GetKeyValue then returns the value whenever deserialization inverts serialization |
| MongoDbWrapper.MongoDb.GetKeyValue | MongoDB.Wrapper/MongoDb.cs:186-191 | the deserialized stored string, or the default when the key is absent |

## Left out

- Connection and client construction, and the naming of collections after the entity type and "Keys" (MongoDb.cs:20-38). The model sees one entity collection and the Keys collection directly. A repository holding several entity types would be several `docs` fields.
- Asynchrony. Each `await` is sequential program order. Within a batch, DeleteMany's `Task.WhenAll` runs its writes concurrently; the model runs them one after the other in batch order (`SoftDeleteBatch`). The writes touch distinct documents, so the resulting store is the same. Interleavings with other callers are not modelled.
- Expression translation. LINQ expressions become Dafny functions `Entity -> bool`, and the driver's translation of them to queries is not modelled.
- Write acknowledgment. The backend's `IsAcknowledged` becomes the parameter `ack`, or `ack(id)` per write in DeleteMany. A write that is not acknowledged is modelled as not applied; the real driver does not say either way. DeleteHardMany takes no such parameter: its delete is modelled as always acknowledged, so `DeletedCount` is always available and equals the number of matches.
- Exceptions. Backend and connectivity exceptions are not modelled. The wrapper's own not-found exceptions (MongoDb.cs:119, 152) and LINQ's more-than-one-match exception (MongoDb.cs:85) become `Failure` results.
- `Guid.NewGuid()` and `DateTimeOffset.Now` (MongoDb.cs:52-53) become the parameters `newId` and `now`. A random Guid is assumed not to collide with a stored id: this is the precondition of `Add` and `Replace`.
- Serialization. `JsonConvert.SerializeObject/DeserializeObject` (MongoDb.cs:180, 183, 189) become the parameters `serialize` and `deserialize`. `value.Equals(default(T))` becomes `value == zero`. A null `value`, which makes `value.Equals` throw, is not modelled. Neither is a stored null `Value`, which makes GetKeyValue return the default.
- BSON mapping attributes (`[BsonId]`, `[BsonRepresentation]`, `[BsonIgnoreExtraElements]`), except that `[BsonId]` is the unique-id invariant.
- Entity fields other than Id, Added and Deleted are one opaque `body` string.
- MongoDbWrapper.MongoDb.FirstOrDefault: the contract promises some visible match and not which one, because the order in which the server returns documents is not part of the model. The body picks the first in collection order.
- MongoDbWrapper.MongoDb.Count: the source returns a 32-bit `int`, and the model returns an unbounded `nat`. Collections of 2^31 or more matches are out of scope.
- MongoDbWrapper.MongoDb.DeleteMany: the model returns an unbounded `nat` where the source returns a 64-bit `long`.
