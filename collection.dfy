/**
 * One entity collection as the driver sees it: a list of documents in natural order,
 * and the driver operations the wrapper issues on it (a Where filter, ReplaceOne,
 * DeleteOne and DeleteMany by predicate). Each by-id operation acts on the FIRST
 * matching document, as the driver's *One operations do.
 */
module Collection {
  import opened Wrappers
  import opened Entities
  import opened EntityExtensions

  /** The filter `Query(false)` adds: the document is not soft-deleted. */
  predicate IsLive(e: Entity)
    ensures IsLive(e) <==> !IsNullOrDeleted(Some(e))
  {
    !e.deleted
  }

  /** The documents of `s` that satisfy `p`, in collection order (LINQ `Where`). */
  function Filter(s: seq<Entity>, p: Entity -> bool): (r: seq<Entity>)
    ensures |r| <= |s|
    ensures forall e :: e in r <==> e in s && p(e)
  {
    if s == [] then []
    else if p(s[0]) then [s[0]] + Filter(s[1..], p)
    else Filter(s[1..], p)
  }

  /** The documents of `s` that do NOT satisfy `p`: what is left after DeleteMany(p). */
  function Reject(s: seq<Entity>, p: Entity -> bool): (r: seq<Entity>)
    ensures |r| <= |s|
    ensures forall e :: e in r <==> e in s && !p(e)
  {
    if s == [] then []
    else if p(s[0]) then Reject(s[1..], p)
    else [s[0]] + Reject(s[1..], p)
  }

  /** Number of documents of `s` whose write the backend acknowledges. */
  function CountAcked(s: seq<Entity>, ack: Id -> bool): (n: nat)
    ensures n <= |s|
    ensures (forall k :: 0 <= k < |s| ==> ack(s[k].id)) ==> n == |s|
  {
    if s == [] then 0
    else (if ack(s[0].id) then 1 else 0) + CountAcked(s[1..], ack)
  }

  /** No two documents share an id (the collection's unique `_id` index). */
  predicate UniqueIds(s: seq<Entity>) {
    forall i, j :: 0 <= i < |s| && 0 <= j < |s| && s[i].id == s[j].id ==> i == j
  }

  predicate HasId(s: seq<Entity>, id: Id) {
    exists k :: 0 <= k < |s| && s[k].id == id
  }

  /** The invariant the wrapper keeps: unique ids, and none of them the default id. */
  predicate WellFormed(s: seq<Entity>) {
    UniqueIds(s) && !HasId(s, DefaultId)
  }

  /** `ReplaceOneAsync(_ => _.Id == id, e)`: the first document with that id becomes `e`. */
  function ReplaceOne(s: seq<Entity>, id: Id, e: Entity): (r: seq<Entity>)
    ensures |r| == |s|
    ensures forall k :: 0 <= k < |s| && s[k].id != id ==> r[k] == s[k]
    ensures !HasId(s, id) ==> r == s
  {
    if s == [] then []
    else if s[0].id == id then [e] + s[1..]
    else [s[0]] + ReplaceOne(s[1..], id, e)
  }

  /** `DeleteOneAsync(_ => _.Id == id)`: the first document with that id is removed. */
  function DeleteOne(s: seq<Entity>, id: Id): (r: seq<Entity>)
    ensures |r| == if HasId(s, id) then |s| - 1 else |s|
    ensures forall d :: d in s && d.id != id ==> d in r
    ensures forall d :: d in r ==> d in s
  {
    if s == [] then []
    else if s[0].id == id then s[1..]
    else [s[0]] + DeleteOne(s[1..], id)
  }

  /** Two documents of a collection with unique ids that share an id are the same document. */
  lemma SameIdSameEntity(s: seq<Entity>, a: Entity, b: Entity)
    requires UniqueIds(s) && a in s && b in s && a.id == b.id
    ensures a == b
  {
  }

  lemma UniqueIdsTail(s: seq<Entity>)
    requires UniqueIds(s) && s != []
    ensures UniqueIds(s[1..]) && !HasId(s[1..], s[0].id)
  {
    forall i, j | 0 <= i < |s| - 1 && 0 <= j < |s| - 1 && s[1..][i].id == s[1..][j].id
      ensures i == j
    {
      assert s[i + 1].id == s[j + 1].id;
    }
  }

  /** A filter of a collection with unique ids has unique ids. */
  lemma {:induction false} FilterUniqueIds(s: seq<Entity>, p: Entity -> bool)
    requires UniqueIds(s)
    ensures UniqueIds(Filter(s, p))
  {
    if s != [] {
      UniqueIdsTail(s);
      FilterUniqueIds(s[1..], p);
      var t := Filter(s[1..], p);
      if p(s[0]) {
        var r := [s[0]] + t;
        forall j | 0 < j < |r| ensures r[j].id != s[0].id {
          assert r[j] == t[j - 1] && t[j - 1] in s[1..];
          var m :| 0 <= m < |s| - 1 && s[1..][m] == r[j];
        }
        forall i, j | 0 <= i < |r| && 0 <= j < |r| && r[i].id == r[j].id
          ensures i == j
        {
          if i > 0 && j > 0 {
            assert t[i - 1].id == t[j - 1].id;
          }
        }
      }
    }
  }

  /** With unique ids no document occurs twice, so the list has as many documents as its set. */
  lemma {:induction false} UniqueIdsCardinality(s: seq<Entity>)
    requires UniqueIds(s)
    ensures |set e | e in s| == |s|
  {
    if s != [] {
      UniqueIdsTail(s);
      UniqueIdsCardinality(s[1..]);
      assert s[0] !in s[1..];
      assert (set e | e in s) == {s[0]} + (set e | e in s[1..]);
    }
  }

  /** Every document passes or fails a predicate: the two halves add up to the whole. */
  lemma {:induction false} FilterRejectPartition(s: seq<Entity>, p: Entity -> bool)
    ensures |Filter(s, p)| + |Reject(s, p)| == |s|
  {
    if s != [] {
      FilterRejectPartition(s[1..], p);
    }
  }

  /** A filter that every document passes keeps the collection as it is. */
  lemma {:induction false} FilterAllPass(s: seq<Entity>, p: Entity -> bool)
    requires forall k :: 0 <= k < |s| ==> p(s[k])
    ensures Filter(s, p) == s
  {
    if s != [] {
      FilterAllPass(s[1..], p);
    }
  }

  /** With unique ids, ReplaceOne replaces exactly the document with that id. */
  lemma {:induction false} ReplaceOneUnique(s: seq<Entity>, id: Id, e: Entity)
    requires UniqueIds(s)
    ensures forall k :: 0 <= k < |s| ==> ReplaceOne(s, id, e)[k] == if s[k].id == id then e else s[k]
  {
    if s != [] {
      UniqueIdsTail(s);
      if s[0].id != id {
        ReplaceOneUnique(s[1..], id, e);
        assert ReplaceOne(s, id, e) == [s[0]] + ReplaceOne(s[1..], id, e);
      } else {
        forall k | 1 <= k < |s| ensures s[k].id != id {
          assert s[1..][k - 1] == s[k];
        }
      }
    }
  }

  /** With unique ids, DeleteOne removes exactly the document with that id. */
  lemma {:induction false} DeleteOneUnique(s: seq<Entity>, id: Id)
    requires UniqueIds(s)
    ensures DeleteOne(s, id) == Filter(s, (d: Entity) => d.id != id)
  {
    if s != [] {
      UniqueIdsTail(s);
      if s[0].id == id {
        FilterAllPass(s[1..], (d: Entity) => d.id != id);
      } else {
        DeleteOneUnique(s[1..], id);
      }
    }
  }

  /** Inserting a document with a fresh, non-default id keeps the collection well formed. */
  lemma AppendFreshId(s: seq<Entity>, e: Entity)
    requires WellFormed(s) && e.id != DefaultId && !HasId(s, e.id)
    ensures WellFormed(s + [e])
  {
    var r := s + [e];
    forall i, j | 0 <= i < |r| && 0 <= j < |r| && r[i].id == r[j].id
      ensures i == j
    {
      if i < |s| && j < |s| {
        assert s[i].id == s[j].id;
      }
    }
  }

  /** Replacing the document with an id by one with the same id keeps the collection well formed. */
  lemma ReplaceKeepsWellFormed(s: seq<Entity>, id: Id, e: Entity)
    requires WellFormed(s) && e.id == id
    ensures WellFormed(ReplaceOne(s, id, e))
  {
    ReplaceOneUnique(s, id, e);
    var r := ReplaceOne(s, id, e);
    assert forall k :: 0 <= k < |s| ==> r[k].id == s[k].id;
    assert HasId(r, DefaultId) ==> HasId(s, DefaultId);
  }

  /** Removing documents keeps the collection well formed. */
  lemma {:induction false} RejectKeepsWellFormed(s: seq<Entity>, p: Entity -> bool)
    requires WellFormed(s)
    ensures WellFormed(Reject(s, p))
  {
    if s != [] {
      UniqueIdsTail(s);
      RejectKeepsWellFormed(s[1..], p);
      var t := Reject(s[1..], p);
      if !p(s[0]) {
        var r := [s[0]] + t;
        forall j | 0 < j < |r| ensures r[j].id != s[0].id {
          assert r[j] == t[j - 1] && t[j - 1] in s[1..];
          var m :| 0 <= m < |s| - 1 && s[1..][m] == r[j];
        }
        forall i, j | 0 <= i < |r| && 0 <= j < |r| && r[i].id == r[j].id
          ensures i == j
        {
          if i > 0 && j > 0 {
            assert t[i - 1].id == t[j - 1].id;
          }
        }
      }
    }
  }

  /** Removing the document with an id keeps the collection well formed. */
  lemma DeleteOneKeepsWellFormed(s: seq<Entity>, id: Id)
    requires WellFormed(s)
    ensures WellFormed(DeleteOne(s, id))
  {
    DeleteOneUnique(s, id);
    FilterUniqueIds(s, (d: Entity) => d.id != id);
    var r := DeleteOne(s, id);
    assert forall k :: 0 <= k < |r| ==> r[k] in s;
  }
}
