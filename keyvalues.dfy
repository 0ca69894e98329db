/**
 * The "Keys" collection: records `{Key, Value}` (KeyValueEntity) in natural order, and the
 * driver operations SetKeyValue issues on it. As with entities, UpdateOne and DeleteOne
 * act on the first record with the key.
 */
module KeyValues {
  import opened Wrappers

  /** A stored key and the serialized form of its value. */
  datatype KeyValue = KeyValue(key: string, value: string)

  /** No two records share a key; SetKeyValue keeps this so. */
  predicate UniqueKeys(kvs: seq<KeyValue>) {
    forall i, j :: 0 <= i < |kvs| && 0 <= j < |kvs| && kvs[i].key == kvs[j].key ==> i == j
  }

  /** `AnyAsync(_ => _.Key == key)`. */
  predicate HasKey(kvs: seq<KeyValue>, key: string)
    ensures HasKey(kvs, key) <==> exists kv :: kv in kvs && kv.key == key
  {
    exists k :: 0 <= k < |kvs| && kvs[k].key == key
  }

  /** `FirstOrDefaultAsync(_ => _.Key == key)`: the first record with the key, if any. */
  function FindKey(kvs: seq<KeyValue>, key: string): (r: Option<KeyValue>)
    ensures r.Some? ==> r.value in kvs && r.value.key == key
    ensures r.None? <==> !HasKey(kvs, key)
  {
    if kvs == [] then None
    else if kvs[0].key == key then Some(kvs[0])
    else FindKey(kvs[1..], key)
  }

  /** `UpdateOneAsync(_ => _.Key == key, Set(_ => _.Value, value))`. */
  function UpdateValue(kvs: seq<KeyValue>, key: string, value: string): (r: seq<KeyValue>)
    ensures |r| == |kvs|
    ensures forall k :: 0 <= k < |kvs| ==> r[k].key == kvs[k].key
    ensures forall k :: 0 <= k < |kvs| && kvs[k].key != key ==> r[k] == kvs[k]
  {
    if kvs == [] then []
    else if kvs[0].key == key then [KeyValue(key, value)] + kvs[1..]
    else [kvs[0]] + UpdateValue(kvs[1..], key, value)
  }

  /** `DeleteOneAsync(_ => _.Key == key)`. */
  function DeleteKey(kvs: seq<KeyValue>, key: string): (r: seq<KeyValue>)
    ensures |r| == if HasKey(kvs, key) then |kvs| - 1 else |kvs|
    ensures forall kv :: kv in kvs && kv.key != key ==> kv in r
    ensures forall kv :: kv in r ==> kv in kvs
  {
    if kvs == [] then []
    else if kvs[0].key == key then kvs[1..]
    else [kvs[0]] + DeleteKey(kvs[1..], key)
  }

  /**
   * The Keys collection after `SetKeyValue(key, value)`, where `isDefault` is
   * `value.Equals(default(T))` and `serialized` is the value's serialized form:
   * an existing key is deleted (default value) or updated (any other value); an
   * absent key is inserted, whatever the value.
   */
  function SetKeyValueEffect(kvs: seq<KeyValue>, key: string, isDefault: bool, serialized: string): (r: seq<KeyValue>)
    ensures |r| == if !HasKey(kvs, key) then |kvs| + 1 else if isDefault then |kvs| - 1 else |kvs|
    ensures forall kv :: kv in kvs && kv.key != key ==> kv in r
  {
    if HasKey(kvs, key) then
      if isDefault then DeleteKey(kvs, key) else UpdateValue(kvs, key, serialized)
    else
      kvs + [KeyValue(key, serialized)]
  }

  lemma UniqueKeysTail(kvs: seq<KeyValue>)
    requires UniqueKeys(kvs) && kvs != []
    ensures UniqueKeys(kvs[1..]) && !HasKey(kvs[1..], kvs[0].key)
  {
    forall i, j | 0 <= i < |kvs| - 1 && 0 <= j < |kvs| - 1 && kvs[1..][i].key == kvs[1..][j].key
      ensures i == j
    {
      assert kvs[i + 1].key == kvs[j + 1].key;
    }
  }

  /** With unique keys, the record FindKey returns is the only one with that key. */
  lemma FindKeyUnique(kvs: seq<KeyValue>, key: string, kv: KeyValue)
    requires UniqueKeys(kvs) && kv in kvs && kv.key == key
    ensures FindKey(kvs, key) == Some(kv)
  {
  }

  /** With unique keys on both sides, FindKey depends only on which records carry the key. */
  lemma FindKeyByMembership(a: seq<KeyValue>, b: seq<KeyValue>, key: string)
    requires UniqueKeys(a) && UniqueKeys(b)
    requires forall kv: KeyValue :: kv.key == key ==> (kv in a <==> kv in b)
    ensures FindKey(a, key) == FindKey(b, key)
  {
    if FindKey(a, key).Some? {
      FindKeyUnique(b, key, FindKey(a, key).value);
    }
  }

  /** Deleting a key keeps keys unique and removes that key. */
  lemma {:induction false} DeleteKeyUnique(kvs: seq<KeyValue>, key: string)
    requires UniqueKeys(kvs)
    ensures UniqueKeys(DeleteKey(kvs, key))
    ensures !HasKey(DeleteKey(kvs, key), key)
  {
    if kvs != [] {
      UniqueKeysTail(kvs);
      if kvs[0].key != key {
        DeleteKeyUnique(kvs[1..], key);
        var t := DeleteKey(kvs[1..], key);
        var r := [kvs[0]] + t;
        assert DeleteKey(kvs, key) == r;
        forall j | 0 < j < |r| ensures r[j].key != kvs[0].key {
          assert r[j] == t[j - 1] && t[j - 1] in kvs[1..];
          var m :| 0 <= m < |kvs| - 1 && kvs[1..][m] == r[j];
        }
        forall i, j | 0 <= i < |r| && 0 <= j < |r| && r[i].key == r[j].key
          ensures i == j
        {
          if i > 0 && j > 0 {
            assert t[i - 1].key == t[j - 1].key;
          }
        }
        assert !HasKey(r, key) by {
          forall k | 0 <= k < |r| ensures r[k].key != key {
            if k > 0 { assert r[k] == t[k - 1]; }
          }
        }
      } else {
        assert DeleteKey(kvs, key) == kvs[1..];
      }
    }
  }

  /** Deleting a key keeps keys unique, removes that key and touches no other key. */
  lemma DeleteKeyFacts(kvs: seq<KeyValue>, key: string)
    requires UniqueKeys(kvs)
    ensures UniqueKeys(DeleteKey(kvs, key))
    ensures !HasKey(DeleteKey(kvs, key), key)
    ensures forall other :: other != key ==> FindKey(DeleteKey(kvs, key), other) == FindKey(kvs, other)
  {
    DeleteKeyUnique(kvs, key);
    forall other | other != key ensures FindKey(DeleteKey(kvs, key), other) == FindKey(kvs, other) {
      FindKeyByMembership(DeleteKey(kvs, key), kvs, other);
    }
  }

  /** Updating a present key keeps keys unique and stores the new value under it. */
  lemma {:induction false} UpdateValueStores(kvs: seq<KeyValue>, key: string, value: string)
    requires UniqueKeys(kvs) && HasKey(kvs, key)
    ensures UniqueKeys(UpdateValue(kvs, key, value))
    ensures FindKey(UpdateValue(kvs, key, value), key) == Some(KeyValue(key, value))
  {
    var r := UpdateValue(kvs, key, value);
    assert UniqueKeys(r) by {
      forall i, j | 0 <= i < |r| && 0 <= j < |r| && r[i].key == r[j].key
        ensures i == j
      {
        assert kvs[i].key == kvs[j].key;
      }
    }
    UniqueKeysTail(kvs);
    if kvs[0].key != key {
      assert HasKey(kvs[1..], key) by {
        var k :| 0 <= k < |kvs| && kvs[k].key == key;
        assert kvs[1..][k - 1].key == key;
      }
      UpdateValueStores(kvs[1..], key, value);
      assert r == [kvs[0]] + UpdateValue(kvs[1..], key, value);
    }
  }

  /** Updating a present key keeps keys unique, stores the new value and touches no other key. */
  lemma UpdateValueFacts(kvs: seq<KeyValue>, key: string, value: string)
    requires UniqueKeys(kvs) && HasKey(kvs, key)
    ensures UniqueKeys(UpdateValue(kvs, key, value))
    ensures FindKey(UpdateValue(kvs, key, value), key) == Some(KeyValue(key, value))
    ensures forall other :: other != key ==> FindKey(UpdateValue(kvs, key, value), other) == FindKey(kvs, other)
  {
    UpdateValueStores(kvs, key, value);
    var r := UpdateValue(kvs, key, value);
    forall other | other != key ensures FindKey(r, other) == FindKey(kvs, other) {
      forall kv: KeyValue | kv.key == other ensures kv in r <==> kv in kvs {
        if kv in r { var k :| 0 <= k < |r| && r[k] == kv; assert kvs[k] == kv; }
        if kv in kvs { var k :| 0 <= k < |kvs| && kvs[k] == kv; assert r[k] == kv; }
      }
      FindKeyByMembership(r, kvs, other);
    }
  }

  /** Inserting an absent key keeps keys unique, stores the record and touches no other key. */
  lemma InsertKeyFacts(kvs: seq<KeyValue>, kv: KeyValue)
    requires UniqueKeys(kvs) && !HasKey(kvs, kv.key)
    ensures UniqueKeys(kvs + [kv])
    ensures FindKey(kvs + [kv], kv.key) == Some(kv)
    ensures forall other :: other != kv.key ==> FindKey(kvs + [kv], other) == FindKey(kvs, other)
  {
    var r := kvs + [kv];
    assert kv in r;
    forall other | other != kv.key ensures FindKey(r, other) == FindKey(kvs, other) {
      if HasKey(kvs, other) {
        var k :| 0 <= k < |kvs| && kvs[k].key == other;
        assert r[k] == kvs[k];
        FindKeyUnique(r, other, kvs[k]);
      } else {
        assert !HasKey(r, other) by {
          forall k | 0 <= k < |r| ensures r[k].key != other {
            if k < |kvs| { assert r[k] == kvs[k]; }
          }
        }
      }
    }
  }

  /** SetKeyValue keeps keys unique and leaves every other key as it was. */
  lemma SetKeyValueKeepsOthers(kvs: seq<KeyValue>, key: string, isDefault: bool, serialized: string)
    requires UniqueKeys(kvs)
    ensures UniqueKeys(SetKeyValueEffect(kvs, key, isDefault, serialized))
    ensures forall other :: other != key ==>
      FindKey(SetKeyValueEffect(kvs, key, isDefault, serialized), other) == FindKey(kvs, other)
  {
    if HasKey(kvs, key) {
      if isDefault { DeleteKeyFacts(kvs, key); } else { UpdateValueFacts(kvs, key, serialized); }
    } else {
      InsertKeyFacts(kvs, KeyValue(key, serialized));
    }
  }

  /**
   * What SetKeyValue leaves under its own key: nothing when an existing key is set to
   * the default value; otherwise exactly the serialized value, which for an absent key
   * holds even when the value is the default.
   */
  lemma SetKeyValueStores(kvs: seq<KeyValue>, key: string, isDefault: bool, serialized: string)
    requires UniqueKeys(kvs)
    ensures FindKey(SetKeyValueEffect(kvs, key, isDefault, serialized), key)
      == if HasKey(kvs, key) && isDefault then None else Some(KeyValue(key, serialized))
  {
    if HasKey(kvs, key) {
      if isDefault { DeleteKeyFacts(kvs, key); } else { UpdateValueFacts(kvs, key, serialized); }
    } else {
      InsertKeyFacts(kvs, KeyValue(key, serialized));
    }
  }
}
