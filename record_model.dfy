/**
 * The class methods of a record type: resolving ids to keys, and the insert,
 * update, delete and select batches sent to the store.
 *
 * The record codec (`serialize_partially`, `deserialize_partially`) and the
 * record constructor are not part of this model; they are passed in as
 * functions and nothing is assumed of them.
 */
module RecordModel {
  import opened Wrappers
  import opened Keys
  import opened StringOrder
  import opened Redis

  // ---------------------------------------------------------------------------
  // Id resolution
  // ---------------------------------------------------------------------------

  /** The record key of each id, in the order given. */
  function KeysOf(c: ModelConfig, ids: seq<string>): seq<string> {
    seq(|ids|, i requires 0 <= i < |ids| => RecordKey(c, ids[i]))
  }

  /**
   * The keys `_ids_to_primary_keys` resolves `ids` to, as a multiset: every
   * member of the table index when `ids` is absent, else the record key of
   * every id, with no check that the record exists.
   */
  ghost function ResolvedKeys(c: ModelConfig, s: StoreState, ids: Option<OneOrMany<string>>): multiset<string> {
    if ids.None? then multiset(Members(s, IndexKey(c)))
    else multiset(KeysOf(c, ids.value.AsList()))
  }

  /** `_ids_to_primary_keys`: the resolved keys, sorted ascending, and the index key. */
  method IdsToPrimaryKeys(redis: Server, c: ModelConfig, ids: Option<OneOrMany<string>>)
    returns (keys: seq<string>, tableIndexKey: string)
    ensures tableIndexKey == IndexKey(c)
    ensures Sorted(keys)
    ensures multiset(keys) == ResolvedKeys(c, redis.State(), ids)
  {
    tableIndexKey := IndexKey(c);
    var unsorted: seq<string>;
    if ids.None? {
      unsorted := redis.Scan(tableIndexKey);
    } else {
      var idList := ids.value.AsList();
      unsorted := KeysOf(c, idList);
    }
    var a := new string[|unsorted|](i requires 0 <= i < |unsorted| => unsorted[i]);
    assert a[..] == unsorted;
    SortInPlace(a);
    keys := a[..];
  }

  /** A single id resolves exactly as the one-element list holding it. */
  lemma SingleIdIsOneElementList(c: ModelConfig, s: StoreState, id: string)
    ensures ResolvedKeys(c, s, Some(One(id))) == ResolvedKeys(c, s, Some(Many([id])))
    ensures ResolvedKeys(c, s, Some(One(id))) == multiset{RecordKey(c, id)}
  {
    assert KeysOf(c, [id]) == [RecordKey(c, id)];
  }

  /**
   * The key list is determined by the ids and the store alone: two sorted
   * lists that resolve the same ids are equal, whatever order the index scan
   * produced its members in.
   */
  lemma ResolutionIsDeterministic(c: ModelConfig, s: StoreState, ids: Option<OneOrMany<string>>,
                                  keys1: seq<string>, keys2: seq<string>)
    requires Sorted(keys1) && multiset(keys1) == ResolvedKeys(c, s, ids)
    requires Sorted(keys2) && multiset(keys2) == ResolvedKeys(c, s, ids)
    ensures keys1 == keys2
  {
    SortedUnique(keys1, keys2);
  }

  // ---------------------------------------------------------------------------
  // Write batches
  // ---------------------------------------------------------------------------

  /** The life span `insert` and `update` use: the argument when given, else the store's default. */
  function LifeSpan(lifeSpanSeconds: Option<nat>, storeDefault: Option<nat>): Option<nat> {
    if lifeSpanSeconds.Some? then lifeSpanSeconds else storeDefault
  }

  /**
   * The commands queued to write one record: its hash, then its key into the
   * index, each followed by an expiry when there is a life span.
   */
  function WriteCommands(tableIndexKey: string, name: string, mapping: map<string, string>,
                         lifeSpan: Option<nat>): seq<Command>
  {
    [HSet(name, mapping)]
    + (if lifeSpan.Some? then [Expire(name, lifeSpan.value)] else [])
    + [SAdd(tableIndexKey, name)]
    + (if lifeSpan.Some? then [Expire(tableIndexKey, lifeSpan.value)] else [])
  }

  /** The batch `insert` queues for `records`, one block per record in order. */
  function InsertBatch<R>(c: ModelConfig, records: seq<R>, primaryKeyOf: R -> string,
                          serialize: R -> map<string, string>, lifeSpan: Option<nat>): seq<Command>
    decreases |records|
  {
    if records == [] then []
    else
      var last := records[|records| - 1];
      InsertBatch(c, records[..|records| - 1], primaryKeyOf, serialize, lifeSpan)
      + WriteCommands(IndexKey(c), RecordKey(c, primaryKeyOf(last)), serialize(last), lifeSpan)
  }

  /** The record keys an insert of `records` writes. */
  ghost function InsertedKeys<R>(c: ModelConfig, records: seq<R>, primaryKeyOf: R -> string): set<string> {
    set r | r in records :: RecordKey(c, primaryKeyOf(r))
  }

  /** What one write block does to the index and the other sets. */
  lemma WriteEffectSets(s: StoreState, tableIndexKey: string, name: string, mapping: map<string, string>,
                    lifeSpan: Option<nat>)
    ensures var t := ApplyAll(s, WriteCommands(tableIndexKey, name, mapping, lifeSpan)).0;
      Members(t, tableIndexKey) == Members(s, tableIndexKey) + {name} &&
      (forall n :: n != tableIndexKey ==> Members(t, n) == Members(s, n))
  {
    var s1 := Apply(s, HSet(name, mapping)).0;
    var s2 := if lifeSpan.Some? then Apply(s1, Expire(name, lifeSpan.value)).0 else s1;
    var s3 := Apply(s2, SAdd(tableIndexKey, name)).0;
    var s4 := if lifeSpan.Some? then Apply(s3, Expire(tableIndexKey, lifeSpan.value)).0 else s3;
    WriteSteps(s, tableIndexKey, name, mapping, lifeSpan);
    SetsAfterWrite(s, tableIndexKey, name, mapping, lifeSpan, s1, s2, s3, s4);
  }

  lemma SetsAfterWrite(s: StoreState, tableIndexKey: string, name: string, mapping: map<string, string>,
                     lifeSpan: Option<nat>, s1: StoreState, s2: StoreState, s3: StoreState, s4: StoreState)
    requires s1 == Apply(s, HSet(name, mapping)).0
    requires s2 == if lifeSpan.Some? then Apply(s1, Expire(name, lifeSpan.value)).0 else s1
    requires s3 == Apply(s2, SAdd(tableIndexKey, name)).0
    requires s4 == if lifeSpan.Some? then Apply(s3, Expire(tableIndexKey, lifeSpan.value)).0 else s3
    ensures Members(s4, tableIndexKey) == Members(s, tableIndexKey) + {name}
    ensures forall n :: n != tableIndexKey ==> Members(s4, n) == Members(s, n)
  {
    HSetEffect(s, name, mapping);
    if lifeSpan.Some? {
      ExpireEffect(s1, name, lifeSpan.value);
      ExpireEffect(s3, tableIndexKey, lifeSpan.value);
    }
    assert s2.sets == s.sets;
    assert s4.sets == s3.sets;
    SAddEffect(s2, tableIndexKey, name);
    SameSetsSameMembers(s2, s);
    SameSetsSameMembers(s4, s3);
  }

  /** Two states with the same sets have the same members everywhere. */
  lemma SameSetsSameMembers(a: StoreState, b: StoreState)
    requires a.sets == b.sets
    ensures forall n :: Members(a, n) == Members(b, n)
  {
  }

  /** Two states with the same hashes have the same hash everywhere. */
  lemma SameHashesSameHashAt(a: StoreState, b: StoreState)
    requires a.hashes == b.hashes
    ensures forall k :: HashAt(a, k) == HashAt(b, k)
  {
  }

  /** What one write block does to the hashes. */
  lemma WriteEffectHashes(s: StoreState, tableIndexKey: string, name: string, mapping: map<string, string>,
                    lifeSpan: Option<nat>)
    ensures var t := ApplyAll(s, WriteCommands(tableIndexKey, name, mapping, lifeSpan)).0;
      HashAt(t, name) == HashAt(s, name) + mapping &&
      (forall k :: k != name ==> HashAt(t, k) == HashAt(s, k))
  {
    var s1 := Apply(s, HSet(name, mapping)).0;
    var s2 := if lifeSpan.Some? then Apply(s1, Expire(name, lifeSpan.value)).0 else s1;
    var s3 := Apply(s2, SAdd(tableIndexKey, name)).0;
    var s4 := if lifeSpan.Some? then Apply(s3, Expire(tableIndexKey, lifeSpan.value)).0 else s3;
    WriteSteps(s, tableIndexKey, name, mapping, lifeSpan);
    HashesAfterWrite(s, tableIndexKey, name, mapping, lifeSpan, s1, s2, s3, s4);
  }

  lemma HashesAfterWrite(s: StoreState, tableIndexKey: string, name: string, mapping: map<string, string>,
                     lifeSpan: Option<nat>, s1: StoreState, s2: StoreState, s3: StoreState, s4: StoreState)
    requires s1 == Apply(s, HSet(name, mapping)).0
    requires s2 == if lifeSpan.Some? then Apply(s1, Expire(name, lifeSpan.value)).0 else s1
    requires s3 == Apply(s2, SAdd(tableIndexKey, name)).0
    requires s4 == if lifeSpan.Some? then Apply(s3, Expire(tableIndexKey, lifeSpan.value)).0 else s3
    ensures HashAt(s4, name) == HashAt(s, name) + mapping
    ensures forall k :: k != name ==> HashAt(s4, k) == HashAt(s, k)
  {
    HSetEffect(s, name, mapping);
    if lifeSpan.Some? {
      ExpireEffect(s1, name, lifeSpan.value);
      ExpireEffect(s3, tableIndexKey, lifeSpan.value);
    }
    SAddEffect(s2, tableIndexKey, name);
    assert s4.hashes == s1.hashes;
    SameHashesSameHashAt(s4, s1);
  }

  /**
   * The expiry times after one write block: with a life span, the record key
   * gets it when the key exists after `hset` (it had fields, or gained some),
   * and the index key always gets it; no other key's expiry changes.
   */
  ghost function TtlAfterBlock(s: StoreState, tableIndexKey: string, name: string,
                               mapping: map<string, string>, lifeSpan: Option<nat>): map<string, nat> {
    if lifeSpan.None? then s.ttl
    else
      var recordTtl := if mapping != map[] || Exists(s, name) then s.ttl[name := lifeSpan.value] else s.ttl;
      recordTtl[tableIndexKey := lifeSpan.value]
  }

  /** What one write block does to the expiry times. */
  lemma WriteEffectTtl(s: StoreState, tableIndexKey: string, name: string, mapping: map<string, string>,
                    lifeSpan: Option<nat>)
    ensures var t := ApplyAll(s, WriteCommands(tableIndexKey, name, mapping, lifeSpan)).0;
      t.ttl == TtlAfterBlock(s, tableIndexKey, name, mapping, lifeSpan) &&
      (lifeSpan.None? ==> t.ttl == s.ttl) &&
      (lifeSpan.Some? ==> TtlOf(t, tableIndexKey) == lifeSpan) &&
      (lifeSpan.Some? && (mapping != map[] || Exists(s, name)) ==> TtlOf(t, name) == lifeSpan) &&
      (forall k :: k != name && k != tableIndexKey ==> TtlOf(t, k) == TtlOf(s, k))
  {
    var s1 := Apply(s, HSet(name, mapping)).0;
    var s2 := if lifeSpan.Some? then Apply(s1, Expire(name, lifeSpan.value)).0 else s1;
    var s3 := Apply(s2, SAdd(tableIndexKey, name)).0;
    var s4 := if lifeSpan.Some? then Apply(s3, Expire(tableIndexKey, lifeSpan.value)).0 else s3;
    WriteSteps(s, tableIndexKey, name, mapping, lifeSpan);
    TtlAfterWrite(s, tableIndexKey, name, mapping, lifeSpan, s1, s2, s3, s4);
    TtlAfterBlockFacts(s, s4, tableIndexKey, name, mapping, lifeSpan);
  }

  /** What the expiry map after a write block says of each key. */
  lemma TtlAfterBlockFacts(s: StoreState, t: StoreState, tableIndexKey: string, name: string,
                           mapping: map<string, string>, lifeSpan: Option<nat>)
    requires t.ttl == TtlAfterBlock(s, tableIndexKey, name, mapping, lifeSpan)
    ensures lifeSpan.None? ==> t.ttl == s.ttl
    ensures lifeSpan.Some? ==> TtlOf(t, tableIndexKey) == lifeSpan
    ensures lifeSpan.Some? && (mapping != map[] || Exists(s, name)) ==> TtlOf(t, name) == lifeSpan
    ensures forall k :: k != name && k != tableIndexKey ==> TtlOf(t, k) == TtlOf(s, k)
  {
  }

  lemma TtlAfterWrite(s: StoreState, tableIndexKey: string, name: string, mapping: map<string, string>,
                     lifeSpan: Option<nat>, s1: StoreState, s2: StoreState, s3: StoreState, s4: StoreState)
    requires s1 == Apply(s, HSet(name, mapping)).0
    requires s2 == if lifeSpan.Some? then Apply(s1, Expire(name, lifeSpan.value)).0 else s1
    requires s3 == Apply(s2, SAdd(tableIndexKey, name)).0
    requires s4 == if lifeSpan.Some? then Apply(s3, Expire(tableIndexKey, lifeSpan.value)).0 else s3
    ensures s4.ttl == TtlAfterBlock(s, tableIndexKey, name, mapping, lifeSpan)
  {
    HSetEffect(s, name, mapping);
    SAddEffect(s2, tableIndexKey, name);
    if lifeSpan.Some? {
      ExpireEffect(s1, name, lifeSpan.value);
      ExpireEffect(s3, tableIndexKey, lifeSpan.value);
      assert Exists(s3, tableIndexKey);
    }
  }

  /**
   * The store `t` after one write block on `s`: the index gains the record's
   * key, the record's hash gains the mapping, with a life span the index and
   * (when it exists after `hset`) the record key get that expiry, and
   * nothing else changes.
   */
  ghost predicate WrittenState(s: StoreState, t: StoreState, tableIndexKey: string, name: string,
                               mapping: map<string, string>, lifeSpan: Option<nat>)
  {
    Members(t, tableIndexKey) == Members(s, tableIndexKey) + {name} &&
    (forall n :: n != tableIndexKey ==> Members(t, n) == Members(s, n)) &&
    HashAt(t, name) == HashAt(s, name) + mapping &&
    (forall k :: k != name ==> HashAt(t, k) == HashAt(s, k)) &&
    t.ttl == TtlAfterBlock(s, tableIndexKey, name, mapping, lifeSpan) &&
    (lifeSpan.None? ==> t.ttl == s.ttl) &&
    (lifeSpan.Some? ==> TtlOf(t, tableIndexKey) == lifeSpan) &&
    (lifeSpan.Some? && (mapping != map[] || Exists(s, name)) ==> TtlOf(t, name) == lifeSpan) &&
    (forall k :: k != name && k != tableIndexKey ==> TtlOf(t, k) == TtlOf(s, k))
  }

  /** Applying one write block gives a `WrittenState`. */
  lemma WriteEffect(s: StoreState, tableIndexKey: string, name: string, mapping: map<string, string>,
                    lifeSpan: Option<nat>)
    ensures WrittenState(s, ApplyAll(s, WriteCommands(tableIndexKey, name, mapping, lifeSpan)).0,
                         tableIndexKey, name, mapping, lifeSpan)
  {
    WriteEffectSets(s, tableIndexKey, name, mapping, lifeSpan);
    WriteEffectHashes(s, tableIndexKey, name, mapping, lifeSpan);
    WriteEffectTtl(s, tableIndexKey, name, mapping, lifeSpan);
  }

  /** A write block applies its commands one after the other. */
  lemma WriteSteps(s: StoreState, tableIndexKey: string, name: string, mapping: map<string, string>,
                   lifeSpan: Option<nat>)
    ensures var s1 := Apply(s, HSet(name, mapping)).0;
      var s2 := if lifeSpan.Some? then Apply(s1, Expire(name, lifeSpan.value)).0 else s1;
      var s3 := Apply(s2, SAdd(tableIndexKey, name)).0;
      var s4 := if lifeSpan.Some? then Apply(s3, Expire(tableIndexKey, lifeSpan.value)).0 else s3;
      ApplyAll(s, WriteCommands(tableIndexKey, name, mapping, lifeSpan)).0 == s4
  {
    var hset := [HSet(name, mapping)];
    var expireName := if lifeSpan.Some? then [Expire(name, lifeSpan.value)] else [];
    var sadd := [SAdd(tableIndexKey, name)];
    var expireIndex := if lifeSpan.Some? then [Expire(tableIndexKey, lifeSpan.value)] else [];
    assert WriteCommands(tableIndexKey, name, mapping, lifeSpan) == hset + expireName + sadd + expireIndex;
    ApplyAllConcat(s, hset + expireName + sadd, expireIndex);
    ApplyAllConcat(s, hset + expireName, sadd);
    ApplyAllConcat(s, hset, expireName);
    ApplyAllSingle(s, hset[0]);
    var s1 := Apply(s, hset[0]).0;
    if lifeSpan.Some? {
      ApplyAllSingle(s1, expireName[0]);
    }
    var s2 := ApplyAll(s1, expireName).0;
    ApplyAllSingle(s2, sadd[0]);
    var s3 := Apply(s2, sadd[0]).0;
    if lifeSpan.Some? {
      ApplyAllSingle(s3, expireIndex[0]);
    }
  }

  /**
   * An insert batch is the batch of all records but the last, then the last
   * record's write block.
   */
  lemma InsertSplit<R>(s: StoreState, c: ModelConfig, records: seq<R>,
      primaryKeyOf: R -> string, serialize: R -> map<string, string>, lifeSpan: Option<nat>)
    requires records != []
    ensures var init := records[..|records| - 1];
      var last := records[|records| - 1];
      var mid := ApplyAll(s, InsertBatch(c, init, primaryKeyOf, serialize, lifeSpan)).0;
      ApplyAll(s, InsertBatch(c, records, primaryKeyOf, serialize, lifeSpan)).0
        == ApplyAll(mid, WriteCommands(IndexKey(c), RecordKey(c, primaryKeyOf(last)), serialize(last), lifeSpan)).0 &&
      InsertedKeys(c, records, primaryKeyOf)
        == InsertedKeys(c, init, primaryKeyOf) + {RecordKey(c, primaryKeyOf(last))} &&
      (forall r :: r in records <==> r in init || r == last)
  {
    var init := records[..|records| - 1];
    var last := records[|records| - 1];
    assert records == init + [last];
    ApplyAllConcat(s, InsertBatch(c, init, primaryKeyOf, serialize, lifeSpan),
      WriteCommands(IndexKey(c), RecordKey(c, primaryKeyOf(last)), serialize(last), lifeSpan));
  }

  /** After `insert`, the index holds exactly its old members and the inserted keys; no other set changes. */
  lemma {:induction false} InsertIndexEffect<R>(s: StoreState, c: ModelConfig, records: seq<R>,
      primaryKeyOf: R -> string, serialize: R -> map<string, string>, lifeSpan: Option<nat>)
    ensures var t := ApplyAll(s, InsertBatch(c, records, primaryKeyOf, serialize, lifeSpan)).0;
      Members(t, IndexKey(c)) == Members(s, IndexKey(c)) + InsertedKeys(c, records, primaryKeyOf) &&
      (forall n :: n != IndexKey(c) ==> Members(t, n) == Members(s, n))
    decreases |records|
  {
    if records != [] {
      var init := records[..|records| - 1];
      var last := records[|records| - 1];
      InsertSplit(s, c, records, primaryKeyOf, serialize, lifeSpan);
      InsertIndexEffect(s, c, init, primaryKeyOf, serialize, lifeSpan);
      var mid := ApplyAll(s, InsertBatch(c, init, primaryKeyOf, serialize, lifeSpan)).0;
      WriteEffectSets(mid, IndexKey(c), RecordKey(c, primaryKeyOf(last)), serialize(last), lifeSpan);
    }
  }

  /**
   * The fields an insert of `records` writes to key `k`: the mappings of the
   * records whose key is `k`, merged in batch order, so a later record's
   * value for a field wins.
   */
  function InsertedFields<R>(c: ModelConfig, records: seq<R>, primaryKeyOf: R -> string,
                             serialize: R -> map<string, string>, k: string): map<string, string>
    decreases |records|
  {
    if records == [] then map[]
    else
      var last := records[|records| - 1];
      InsertedFields(c, records[..|records| - 1], primaryKeyOf, serialize, k)
      + (if RecordKey(c, primaryKeyOf(last)) == k then serialize(last) else map[])
  }

  /** No two records of the list share a primary key's record key. */
  ghost predicate DistinctKeys<R>(c: ModelConfig, records: seq<R>, primaryKeyOf: R -> string) {
    forall i, j :: 0 <= i < j < |records| ==>
      RecordKey(c, primaryKeyOf(records[i])) != RecordKey(c, primaryKeyOf(records[j]))
  }

  /** The fields an insert writes to `k` are those of all records but the last, then the last's. */
  lemma InsertedFieldsLast<R>(c: ModelConfig, records: seq<R>, primaryKeyOf: R -> string,
                              serialize: R -> map<string, string>, k: string)
    requires records != []
    ensures var last := records[|records| - 1];
      InsertedFields(c, records, primaryKeyOf, serialize, k)
        == InsertedFields(c, records[..|records| - 1], primaryKeyOf, serialize, k)
           + (if RecordKey(c, primaryKeyOf(last)) == k then serialize(last) else map[])
  {
  }

  lemma MapUnionEmpty(m: map<string, string>)
    ensures m + map[] == m
  {
  }

  lemma MapUnionAssociative(a: map<string, string>, b: map<string, string>, d: map<string, string>)
    ensures (a + b) + d == a + (b + d)
  {
    assert forall k :: k in (a + b) + d <==> k in a + (b + d);
  }

  /**
   * After `insert`, the hash at every key is its old content merged with the
   * fields the insert wrote to that key.
   */
  lemma {:induction false} InsertHashEffect<R>(s: StoreState, c: ModelConfig, records: seq<R>,
      primaryKeyOf: R -> string, serialize: R -> map<string, string>, lifeSpan: Option<nat>)
    ensures var t := ApplyAll(s, InsertBatch(c, records, primaryKeyOf, serialize, lifeSpan)).0;
      forall k :: HashAt(t, k) == HashAt(s, k) + InsertedFields(c, records, primaryKeyOf, serialize, k)
    decreases |records|
  {
    if records == [] {
      assert forall k :: HashAt(s, k) + map[] == HashAt(s, k);
    } else {
      var init := records[..|records| - 1];
      var last := records[|records| - 1];
      var name := RecordKey(c, primaryKeyOf(last));
      InsertSplit(s, c, records, primaryKeyOf, serialize, lifeSpan);
      InsertHashEffect(s, c, init, primaryKeyOf, serialize, lifeSpan);
      var mid := ApplyAll(s, InsertBatch(c, init, primaryKeyOf, serialize, lifeSpan)).0;
      WriteEffectHashes(mid, IndexKey(c), name, serialize(last), lifeSpan);
      var t := ApplyAll(s, InsertBatch(c, records, primaryKeyOf, serialize, lifeSpan)).0;
      forall k
        ensures HashAt(t, k) == HashAt(s, k) + InsertedFields(c, records, primaryKeyOf, serialize, k)
      {
        var added := if name == k then serialize(last) else map[];
        var before := InsertedFields(c, init, primaryKeyOf, serialize, k);
        InsertedFieldsLast(c, records, primaryKeyOf, serialize, k);
        if name != k {
          MapUnionEmpty(HashAt(mid, k));
        }
        assert HashAt(t, k) == HashAt(mid, k) + added;
        MapUnionAssociative(HashAt(s, k), before, added);
      }
    }
  }

  /** An insert writes no field to a key it does not insert. */
  lemma {:induction false} InsertedFieldsOutside<R>(c: ModelConfig, records: seq<R>, primaryKeyOf: R -> string,
      serialize: R -> map<string, string>, k: string)
    requires k !in InsertedKeys(c, records, primaryKeyOf)
    ensures InsertedFields(c, records, primaryKeyOf, serialize, k) == map[]
    decreases |records|
  {
    if records != [] {
      var init := records[..|records| - 1];
      var last := records[|records| - 1];
      assert records == init + [last];
      assert InsertedKeys(c, init, primaryKeyOf) <= InsertedKeys(c, records, primaryKeyOf);
      InsertedFieldsOutside(c, init, primaryKeyOf, serialize, k);
    }
  }

  /** Every field of every inserted record is written to that record's key. */
  lemma {:induction false} InsertedFieldsCover<R>(c: ModelConfig, records: seq<R>, primaryKeyOf: R -> string,
      serialize: R -> map<string, string>, r: R)
    requires r in records
    ensures serialize(r).Keys <= InsertedFields(c, records, primaryKeyOf, serialize, RecordKey(c, primaryKeyOf(r))).Keys
    decreases |records|
  {
    var init := records[..|records| - 1];
    var last := records[|records| - 1];
    assert records == init + [last];
    if r != last {
      InsertedFieldsCover(c, init, primaryKeyOf, serialize, r);
    }
  }

  /** With distinct keys, the fields written to a record's key are exactly that record's mapping. */
  lemma {:induction false} InsertedFieldsDistinct<R>(c: ModelConfig, records: seq<R>, primaryKeyOf: R -> string,
      serialize: R -> map<string, string>, r: R)
    requires DistinctKeys(c, records, primaryKeyOf)
    requires r in records
    ensures InsertedFields(c, records, primaryKeyOf, serialize, RecordKey(c, primaryKeyOf(r))) == serialize(r)
    decreases |records|
  {
    var init := records[..|records| - 1];
    var last := records[|records| - 1];
    var k := RecordKey(c, primaryKeyOf(r));
    DistinctKeysSplit(c, records, primaryKeyOf);
    if r == last {
      InsertedFieldsOutside(c, init, primaryKeyOf, serialize, k);
      assert map[] + serialize(r) == serialize(r);
    } else {
      assert records == init + [last];
      assert r in init;
      InsertedFieldsDistinct(c, init, primaryKeyOf, serialize, r);
    }
  }

  /**
   * With distinct keys, all records but the last have distinct keys, none of
   * them the last record's key.
   */
  lemma DistinctKeysSplit<R>(c: ModelConfig, records: seq<R>, primaryKeyOf: R -> string)
    requires DistinctKeys(c, records, primaryKeyOf)
    requires records != []
    ensures DistinctKeys(c, records[..|records| - 1], primaryKeyOf)
    ensures RecordKey(c, primaryKeyOf(records[|records| - 1]))
      !in InsertedKeys(c, records[..|records| - 1], primaryKeyOf)
    ensures forall r :: r in records ==> r in records[..|records| - 1] || r == records[|records| - 1]
  {
    var init := records[..|records| - 1];
    var last := records[|records| - 1];
    assert records == init + [last];
    forall r' | r' in init
      ensures RecordKey(c, primaryKeyOf(r')) != RecordKey(c, primaryKeyOf(last))
    {
      var i :| 0 <= i < |init| && init[i] == r';
      assert records[i] == r';
    }
  }

  /**
   * Without a life span `insert` sets no expiry. With one, the index carries
   * it after a non-empty insert, so does the key of every record with fields,
   * and no key the insert does not write changes its expiry.
   */
  lemma {:induction false} InsertTtlEffect<R>(s: StoreState, c: ModelConfig, records: seq<R>,
      primaryKeyOf: R -> string, serialize: R -> map<string, string>, lifeSpan: Option<nat>)
    ensures var t := ApplyAll(s, InsertBatch(c, records, primaryKeyOf, serialize, lifeSpan)).0;
      (lifeSpan.None? ==> t.ttl == s.ttl) &&
      (lifeSpan.Some? && records != [] ==> TtlOf(t, IndexKey(c)) == lifeSpan) &&
      (lifeSpan.Some? ==> forall r :: r in records && serialize(r) != map[] ==>
        TtlOf(t, RecordKey(c, primaryKeyOf(r))) == lifeSpan) &&
      (forall k :: k != IndexKey(c) && k !in InsertedKeys(c, records, primaryKeyOf) ==> TtlOf(t, k) == TtlOf(s, k))
    decreases |records|
  {
    if records != [] {
      var init := records[..|records| - 1];
      var last := records[|records| - 1];
      InsertSplit(s, c, records, primaryKeyOf, serialize, lifeSpan);
      InsertTtlEffect(s, c, init, primaryKeyOf, serialize, lifeSpan);
      var mid := ApplyAll(s, InsertBatch(c, init, primaryKeyOf, serialize, lifeSpan)).0;
      WriteEffectTtl(mid, IndexKey(c), RecordKey(c, primaryKeyOf(last)), serialize(last), lifeSpan);
    }
  }

  /**
   * Every record of an insert gets an `hset` of its mapping to its key and an
   * `sadd` of its key to the index, and, when there is a life span, an
   * `expire` of both keys.
   */
  lemma {:induction false} InsertBatchCovers<R>(c: ModelConfig, records: seq<R>, primaryKeyOf: R -> string,
      serialize: R -> map<string, string>, lifeSpan: Option<nat>)
    ensures var batch := InsertBatch(c, records, primaryKeyOf, serialize, lifeSpan);
      forall r :: r in records ==>
        HSet(RecordKey(c, primaryKeyOf(r)), serialize(r)) in batch &&
        SAdd(IndexKey(c), RecordKey(c, primaryKeyOf(r))) in batch &&
        (lifeSpan.Some? ==>
          Expire(RecordKey(c, primaryKeyOf(r)), lifeSpan.value) in batch &&
          Expire(IndexKey(c), lifeSpan.value) in batch)
    decreases |records|
  {
    if records != [] {
      var init := records[..|records| - 1];
      var last := records[|records| - 1];
      InsertBatchCovers(c, init, primaryKeyOf, serialize, lifeSpan);
      assert records == init + [last];
      var front := InsertBatch(c, init, primaryKeyOf, serialize, lifeSpan);
      var block := WriteCommands(IndexKey(c), RecordKey(c, primaryKeyOf(last)), serialize(last), lifeSpan);
      assert InsertBatch(c, records, primaryKeyOf, serialize, lifeSpan) == front + block;
      assert forall cmd :: cmd in front ==> cmd in front + block;
      assert forall cmd :: cmd in block ==> cmd in front + block;
    }
  }

  /**
   * An insert batch only writes (`hset`, `sadd`, `expire`), and every
   * `expire` carries the life span, so there is none without one.
   */
  lemma {:induction false} InsertBatchOnlyWrites<R>(c: ModelConfig, records: seq<R>, primaryKeyOf: R -> string,
      serialize: R -> map<string, string>, lifeSpan: Option<nat>)
    ensures var batch := InsertBatch(c, records, primaryKeyOf, serialize, lifeSpan);
      (forall cmd :: cmd in batch ==> cmd.HSet? || cmd.SAdd? || cmd.Expire?) &&
      (forall cmd :: cmd in batch && cmd.Expire? ==> lifeSpan == Some(cmd.time))
    decreases |records|
  {
    if records != [] {
      var init := records[..|records| - 1];
      var last := records[|records| - 1];
      InsertBatchOnlyWrites(c, init, primaryKeyOf, serialize, lifeSpan);
      var front := InsertBatch(c, init, primaryKeyOf, serialize, lifeSpan);
      var block := WriteCommands(IndexKey(c), RecordKey(c, primaryKeyOf(last)), serialize(last), lifeSpan);
      assert forall cmd :: cmd in front + block ==> cmd in front || cmd in block;
    }
  }

  /** Each record of an insert takes two commands, or four with a life span. */
  lemma {:induction false} InsertBatchLength<R>(c: ModelConfig, records: seq<R>, primaryKeyOf: R -> string,
      serialize: R -> map<string, string>, lifeSpan: Option<nat>)
    ensures |InsertBatch(c, records, primaryKeyOf, serialize, lifeSpan)|
      == |records| * (if lifeSpan.Some? then 4 else 2)
    decreases |records|
  {
    if records != [] {
      InsertBatchLength(c, records[..|records| - 1], primaryKeyOf, serialize, lifeSpan);
    }
  }

  /**
   * The store `t` after inserting `records` into `s` with `lifeSpan`:
   * - the index gains exactly the inserted keys, and no other set changes;
   * - every hash is its old content merged with the fields written to its key,
   *   so each record's fields are there, keys not inserted keep their hash, and
   *   with distinct keys each record's hash is its old content plus its mapping;
   * - without a life span no expiry changes; with one, the index (after a
   *   non-empty insert) and the key of every record with fields carry it;
   * - no key but the index and the inserted keys changes its expiry.
   */
  ghost predicate InsertedState<R>(s: StoreState, t: StoreState, c: ModelConfig, records: seq<R>,
                                   primaryKeyOf: R -> string, serialize: R -> map<string, string>,
                                   lifeSpan: Option<nat>)
  {
    Members(t, IndexKey(c)) == Members(s, IndexKey(c)) + InsertedKeys(c, records, primaryKeyOf) &&
    (forall n :: n != IndexKey(c) ==> Members(t, n) == Members(s, n)) &&
    (forall k :: HashAt(t, k) == HashAt(s, k) + InsertedFields(c, records, primaryKeyOf, serialize, k)) &&
    (forall k :: k !in InsertedKeys(c, records, primaryKeyOf) ==> HashAt(t, k) == HashAt(s, k)) &&
    (forall r :: r in records ==> serialize(r).Keys <= HashAt(t, RecordKey(c, primaryKeyOf(r))).Keys) &&
    (DistinctKeys(c, records, primaryKeyOf) ==> forall r :: r in records ==>
      HashAt(t, RecordKey(c, primaryKeyOf(r))) == HashAt(s, RecordKey(c, primaryKeyOf(r))) + serialize(r)) &&
    (lifeSpan.None? ==> t.ttl == s.ttl) &&
    (lifeSpan.Some? && records != [] ==> TtlOf(t, IndexKey(c)) == lifeSpan) &&
    (lifeSpan.Some? ==> forall r :: r in records && serialize(r) != map[] ==>
      TtlOf(t, RecordKey(c, primaryKeyOf(r))) == lifeSpan) &&
    (forall k :: k != IndexKey(c) && k !in InsertedKeys(c, records, primaryKeyOf) ==> TtlOf(t, k) == TtlOf(s, k))
  }

  /** The hash facts of `InsertedState`, from the merged-fields equation. */
  lemma InsertHashFacts<R>(s: StoreState, t: StoreState, c: ModelConfig, records: seq<R>,
                           primaryKeyOf: R -> string, serialize: R -> map<string, string>)
    requires forall k :: HashAt(t, k) == HashAt(s, k) + InsertedFields(c, records, primaryKeyOf, serialize, k)
    ensures forall k :: k !in InsertedKeys(c, records, primaryKeyOf) ==> HashAt(t, k) == HashAt(s, k)
    ensures forall r :: r in records ==> serialize(r).Keys <= HashAt(t, RecordKey(c, primaryKeyOf(r))).Keys
    ensures DistinctKeys(c, records, primaryKeyOf) ==> forall r :: r in records ==>
      HashAt(t, RecordKey(c, primaryKeyOf(r))) == HashAt(s, RecordKey(c, primaryKeyOf(r))) + serialize(r)
  {
    forall k | k !in InsertedKeys(c, records, primaryKeyOf)
      ensures HashAt(t, k) == HashAt(s, k)
    {
      InsertedFieldsOutside(c, records, primaryKeyOf, serialize, k);
      assert HashAt(s, k) + map[] == HashAt(s, k);
    }
    forall r | r in records
      ensures serialize(r).Keys <= HashAt(t, RecordKey(c, primaryKeyOf(r))).Keys
    {
      InsertedFieldsCover(c, records, primaryKeyOf, serialize, r);
    }
    if DistinctKeys(c, records, primaryKeyOf) {
      forall r | r in records
        ensures HashAt(t, RecordKey(c, primaryKeyOf(r))) == HashAt(s, RecordKey(c, primaryKeyOf(r))) + serialize(r)
      {
        InsertedFieldsDistinct(c, records, primaryKeyOf, serialize, r);
      }
    }
  }

  /** Applying an insert batch gives an `InsertedState`. */
  lemma InsertEffect<R>(s: StoreState, c: ModelConfig, records: seq<R>,
                        primaryKeyOf: R -> string, serialize: R -> map<string, string>, lifeSpan: Option<nat>)
    ensures InsertedState(s, ApplyAll(s, InsertBatch(c, records, primaryKeyOf, serialize, lifeSpan)).0,
                          c, records, primaryKeyOf, serialize, lifeSpan)
  {
    var t := ApplyAll(s, InsertBatch(c, records, primaryKeyOf, serialize, lifeSpan)).0;
    InsertIndexEffect(s, c, records, primaryKeyOf, serialize, lifeSpan);
    InsertHashEffect(s, c, records, primaryKeyOf, serialize, lifeSpan);
    InsertHashFacts(s, t, c, records, primaryKeyOf, serialize);
    InsertTtlEffect(s, c, records, primaryKeyOf, serialize, lifeSpan);
  }

  /**
   * `insert`: writes every record, indexes its key, and sets expiries when
   * there is a life span: `life_span_seconds` when given, else the store's.
   */
  method Insert<R>(redis: Server, c: ModelConfig, storeLifeSpan: Option<nat>, data: OneOrMany<R>,
                   lifeSpanSeconds: Option<nat>, primaryKeyOf: R -> string,
                   serialize: R -> map<string, string>)
    returns (response: seq<Reply>)
    modifies redis
    ensures var batch := InsertBatch(c, data.AsList(), primaryKeyOf, serialize,
                                     LifeSpan(lifeSpanSeconds, storeLifeSpan));
      redis.State() == ApplyAll(old(redis.State()), batch).0 &&
      response == ApplyAll(old(redis.State()), batch).1
    ensures lifeSpanSeconds.Some? ==>
      InsertedState(old(redis.State()), redis.State(), c, data.AsList(), primaryKeyOf, serialize, lifeSpanSeconds)
    ensures lifeSpanSeconds.None? ==>
      InsertedState(old(redis.State()), redis.State(), c, data.AsList(), primaryKeyOf, serialize, storeLifeSpan)
  {
    var lifeSpan := LifeSpan(lifeSpanSeconds, storeLifeSpan);
    var dataList := data.AsList();
    var batch := QueueInserts(c, dataList, lifeSpan, primaryKeyOf, serialize);
    InsertEffect(redis.State(), c, dataList, primaryKeyOf, serialize, lifeSpan);
    response := redis.Execute(batch);
  }

  /** The loop of `insert` that queues each record's write block on the pipeline. */
  method QueueInserts<R>(c: ModelConfig, dataList: seq<R>, lifeSpan: Option<nat>,
                         primaryKeyOf: R -> string, serialize: R -> map<string, string>)
    returns (batch: seq<Command>)
    ensures batch == InsertBatch(c, dataList, primaryKeyOf, serialize, lifeSpan)
  {
    batch := [];
    var i := 0;
    while i < |dataList|
      invariant 0 <= i <= |dataList|
      invariant batch == InsertBatch(c, dataList[..i], primaryKeyOf, serialize, lifeSpan)
    {
      ghost var front := batch;
      var record := dataList[i];
      var name := RecordKey(c, primaryKeyOf(record));
      var mapping := serialize(record);
      batch := batch + [HSet(name, mapping)];
      if lifeSpan.Some? {
        batch := batch + [Expire(name, lifeSpan.value)];
      }
      var tableIndexKey := IndexKey(c);
      batch := batch + [SAdd(tableIndexKey, name)];
      if lifeSpan.Some? {
        batch := batch + [Expire(tableIndexKey, lifeSpan.value)];
      }
      assert batch == front + WriteCommands(tableIndexKey, name, mapping, lifeSpan);
      assert dataList[..i + 1][..i] == dataList[..i];
      assert dataList[..i + 1][i] == record;
      i := i + 1;
    }
    assert dataList[..i] == dataList;
  }

  /** The `data` argument of `update`: a dict of field values, or any value that is not a dict. */
  datatype UpdateData<V> = Dict(fields: map<string, V>) | NotDict

  /** The batch `update` queues: one write block for the id's key, or nothing when `data` is not a dict. */
  function UpdateBatch<V>(c: ModelConfig, id: string, data: UpdateData<V>,
                          serialize: map<string, V> -> map<string, string>, lifeSpan: Option<nat>): seq<Command>
  {
    if data.Dict? then WriteCommands(IndexKey(c), RecordKey(c, id), serialize(data.fields), lifeSpan)
    else []
  }

  /**
   * `update`: writes the given fields to one record's hash, re-adds its key
   * to the index and sets the expiries with the same life span rule as
   * `insert`; a `data` that is not a dict sends an empty pipeline.
   */
  method Update<V>(redis: Server, c: ModelConfig, storeLifeSpan: Option<nat>, id: string,
                   data: UpdateData<V>, lifeSpanSeconds: Option<nat>,
                   serialize: map<string, V> -> map<string, string>)
    returns (response: seq<Reply>)
    modifies redis
    ensures var batch := UpdateBatch(c, id, data, serialize, LifeSpan(lifeSpanSeconds, storeLifeSpan));
      redis.State() == ApplyAll(old(redis.State()), batch).0 &&
      response == ApplyAll(old(redis.State()), batch).1
    ensures data.NotDict? ==> redis.State() == old(redis.State()) && response == []
    ensures data.Dict? && lifeSpanSeconds.Some? ==>
      WrittenState(old(redis.State()), redis.State(), IndexKey(c), RecordKey(c, id), serialize(data.fields),
                   lifeSpanSeconds)
    ensures data.Dict? && lifeSpanSeconds.None? ==>
      WrittenState(old(redis.State()), redis.State(), IndexKey(c), RecordKey(c, id), serialize(data.fields),
                   storeLifeSpan)
  {
    var lifeSpan := LifeSpan(lifeSpanSeconds, storeLifeSpan);
    var batch: seq<Command> := [];
    if data.Dict? {
      var name := RecordKey(c, id);
      batch := batch + [HSet(name, serialize(data.fields))];
      if lifeSpan.Some? {
        batch := batch + [Expire(name, lifeSpan.value)];
      }
      var tableIndexKey := IndexKey(c);
      batch := batch + [SAdd(tableIndexKey, name)];
      if lifeSpan.Some? {
        batch := batch + [Expire(tableIndexKey, lifeSpan.value)];
      }
      assert batch == WriteCommands(tableIndexKey, name, serialize(data.fields), lifeSpan);
      WriteEffect(redis.State(), tableIndexKey, name, serialize(data.fields), lifeSpan);
    }
    response := redis.Execute(batch);
  }

  /** The batch `delete` queues for a non-empty key list. */
  function DeleteBatch(tableIndexKey: string, keys: seq<string>): seq<Command> {
    [Del(keys), SRem(tableIndexKey, keys)]
  }

  /**
   * What a delete batch does: the listed hashes are gone, the listed keys are
   * out of the index, and every other hash and every other index member stays.
   * A listed key that is the index key itself deletes the whole index.
   */
  lemma DeleteEffect(s: StoreState, tableIndexKey: string, keys: seq<string>)
    ensures var t := ApplyAll(s, DeleteBatch(tableIndexKey, keys)).0;
      (forall k :: k in keys ==> k !in t.hashes && k !in t.ttl) &&
      (forall k :: k !in keys ==> HashAt(t, k) == HashAt(s, k)) &&
      Members(t, tableIndexKey)
        == (if tableIndexKey in keys then {} else Members(s, tableIndexKey) - SetOf(keys)) &&
      (forall n :: n != tableIndexKey ==> Members(t, n) == (if n in keys then {} else Members(s, n)))
  {
    var t1 := Apply(s, Del(keys)).0;
    var t2 := Apply(t1, SRem(tableIndexKey, keys)).0;
    assert ApplyAll(s, DeleteBatch(tableIndexKey, keys)).0 == t2 by {
      assert DeleteBatch(tableIndexKey, keys) == [Del(keys)] + [SRem(tableIndexKey, keys)];
      ApplyAllConcat(s, [Del(keys)], [SRem(tableIndexKey, keys)]);
      ApplyAllSingle(s, Del(keys));
      ApplyAllSingle(t1, SRem(tableIndexKey, keys));
    }
    DelEffect(s, keys);
    SRemEffect(t1, tableIndexKey, keys);
  }

  /**
   * A delete batch over the resolved keys of `ids`: the resolved hashes are
   * gone, every other hash stays, the resolved keys leave the index, and
   * deleting every indexed record (no ids) empties the index.
   */
  lemma DeleteResolved(s: StoreState, c: ModelConfig, ids: Option<OneOrMany<string>>, keys: seq<string>)
    requires multiset(keys) == ResolvedKeys(c, s, ids)
    ensures var t := ApplyAll(s, DeleteBatch(IndexKey(c), keys)).0;
      (forall k :: k in ResolvedKeys(c, s, ids) ==> k !in t.hashes) &&
      (forall k :: k !in ResolvedKeys(c, s, ids) ==> HashAt(t, k) == HashAt(s, k)) &&
      (IndexKey(c) !in ResolvedKeys(c, s, ids) ==>
        Members(t, IndexKey(c)) == Members(s, IndexKey(c)) - set k | k in ResolvedKeys(c, s, ids)) &&
      (ids.None? ==> Members(t, IndexKey(c)) == {})
  {
    DeleteEffect(s, IndexKey(c), keys);
    assert forall k :: k in keys <==> k in ResolvedKeys(c, s, ids);
    assert SetOf(keys) == set k | k in ResolvedKeys(c, s, ids);
    if ids.None? {
      assert forall k :: k in ResolvedKeys(c, s, ids) <==> k in Members(s, IndexKey(c));
      assert SetOf(keys) == Members(s, IndexKey(c));
    }
  }

  /**
   * `delete`: with no resolved key, nothing is sent and the result is None;
   * otherwise the resolved hashes are deleted, their keys leave the index,
   * and the result holds the pipeline's replies.
   */
  method Delete(redis: Server, c: ModelConfig, ids: Option<OneOrMany<string>>)
    returns (response: Option<seq<Reply>>)
    modifies redis
    ensures ResolvedKeys(c, old(redis.State()), ids) == multiset{} <==> response.None?
    ensures response.None? ==> redis.State() == old(redis.State())
    ensures response.Some? ==>
      exists keys :: multiset(keys) == ResolvedKeys(c, old(redis.State()), ids) &&
        redis.State() == ApplyAll(old(redis.State()), DeleteBatch(IndexKey(c), keys)).0 &&
        response.value == ApplyAll(old(redis.State()), DeleteBatch(IndexKey(c), keys)).1
    ensures forall k :: k in ResolvedKeys(c, old(redis.State()), ids) ==> k !in redis.State().hashes
    ensures forall k :: k !in ResolvedKeys(c, old(redis.State()), ids) ==>
      HashAt(redis.State(), k) == HashAt(old(redis.State()), k)
    ensures IndexKey(c) !in ResolvedKeys(c, old(redis.State()), ids) ==>
      Members(redis.State(), IndexKey(c))
        == Members(old(redis.State()), IndexKey(c)) - set k | k in ResolvedKeys(c, old(redis.State()), ids)
    ensures ids.None? ==> Members(redis.State(), IndexKey(c)) == {}
  {
    var keys, tableIndexKey := IdsToPrimaryKeys(redis, c, ids);
    if |keys| == 0 {
      response := None;
      return;
    }
    var batch := [Del(keys), SRem(tableIndexKey, keys)];
    assert batch == DeleteBatch(IndexKey(c), keys);
    DeleteResolved(redis.State(), c, ids, keys);
    var replies := redis.Execute(batch);
    response := Some(replies);
  }

  // ---------------------------------------------------------------------------
  // Select: pagination
  // ---------------------------------------------------------------------------

  function Min(a: int, b: int): int {
    if a <= b then a else b
  }

  /** Python's `s[start:stop]` for bounds that are absent or non-negative. */
  function PySlice<T>(s: seq<T>, start: Option<nat>, stop: Option<nat>): seq<T> {
    var lo := if start.Some? then Min(start.value, |s|) else 0;
    var hi := if stop.Some? then Min(stop.value, |s|) else |s|;
    if lo <= hi then s[lo..hi] else []
  }

  /** The keys `select` reads: `limit` becomes `limit + skip` when both are given, then the slice is taken. */
  function Page(keys: seq<string>, skip: Option<nat>, limit: Option<nat>): seq<string> {
    var stop := if limit.Some? && skip.Some? then Some(limit.value + skip.value) else limit;
    PySlice(keys, skip, stop)
  }

  /**
   * Pagination: the page is the run of keys from position `skip` (0 when
   * absent) holding `limit` keys (all the rest when absent), cut at the end
   * of the list.
   */
  lemma PageWindow(keys: seq<string>, skip: Option<nat>, limit: Option<nat>)
    ensures var start := skip.GetOr(0);
      var page := Page(keys, skip, limit);
      |page| == (if start >= |keys| then 0
                 else if limit.Some? then Min(limit.value, |keys| - start)
                 else |keys| - start) &&
      (forall i :: 0 <= i < |page| ==> page[i] == keys[start + i])
  {
  }

  /** The four cases of the slice `all_keys[skip:limit]`. */
  lemma PageCases(keys: seq<string>, skip: Option<nat>, limit: Option<nat>)
    ensures skip.Some? && limit.Some? ==>
      Page(keys, skip, limit) == keys[Min(skip.value, |keys|)..Min(skip.value + limit.value, |keys|)]
    ensures skip.None? && limit.Some? ==> Page(keys, skip, limit) == keys[..Min(limit.value, |keys|)]
    ensures skip.Some? && limit.None? ==> Page(keys, skip, limit) == keys[Min(skip.value, |keys|)..]
    ensures skip.None? && limit.None? ==> Page(keys, skip, limit) == keys
  {
  }

  // ---------------------------------------------------------------------------
  // Select: reads and result shaping
  // ---------------------------------------------------------------------------

  /** The read queued for one key: the whole hash, or the requested columns. */
  function ReadCommand(key: string, columns: Option<seq<string>>): Command {
    if columns.None? then HGetAll(key) else HMGet(key, columns.value)
  }

  /** The replies to reading `keys` from the store. */
  function Reads(s: StoreState, keys: seq<string>, columns: Option<seq<string>>): (r: seq<Reply>)
    ensures |r| == |keys|
    ensures columns.None? ==> forall i :: 0 <= i < |r| ==> r[i] == Hash(HashAt(s, keys[i]))
    ensures columns.Some? ==> forall i :: 0 <= i < |r| ==>
      r[i] == Values(HashValues(HashAt(s, keys[i]), columns.value)) && |r[i].values| == |columns.value|
  {
    seq(|keys|, i requires 0 <= i < |keys| => Apply(s, ReadCommand(keys[i], columns)).1)
  }

  /** The result of `select`: records rebuilt from full hashes, or column mappings. */
  datatype Selection<R, D> = Records(records: seq<R>) | Rows(rows: seq<D>)

  /** A reply that equals `{}`: the hash read from a key that holds none. */
  predicate IsEmptyHash(r: Reply) {
    r == Hash(map[])
  }

  /** The replies that are not `{}`, in order. */
  function NonEmpty(replies: seq<Reply>): (r: seq<Reply>)
    ensures |r| <= |replies|
    ensures forall x :: x in r <==> x in replies && !IsEmptyHash(x)
    ensures (forall x :: x in replies ==> !IsEmptyHash(x)) ==> r == replies
    decreases |replies|
  {
    if replies == [] then []
    else if IsEmptyHash(replies[0]) then NonEmpty(replies[1..])
    else [replies[0]] + NonEmpty(replies[1..])
  }

  /** Filtering a concatenation filters each part: the kept replies stay in their order. */
  lemma {:induction false} NonEmptyAppend(a: seq<Reply>, b: seq<Reply>)
    ensures NonEmpty(a + b) == NonEmpty(a) + NonEmpty(b)
    decreases |a|
  {
    if a == [] {
      assert a + b == b;
    } else {
      assert (a + b)[0] == a[0];
      assert (a + b)[1..] == a[1..] + b;
      NonEmptyAppend(a[1..], b);
      if !IsEmptyHash(a[0]) {
        assert [a[0]] + (NonEmpty(a[1..]) + NonEmpty(b)) == ([a[0]] + NonEmpty(a[1..])) + NonEmpty(b);
      }
    }
  }

  /** A single reply is kept exactly when it is not `{}`. */
  lemma NonEmptySingle(x: Reply)
    ensures NonEmpty([x]) == (if IsEmptyHash(x) then [] else [x])
  {
    assert [x][1..] == [];
  }

  /** `{field: record[index] for index, field in enumerate(columns)}` */
  function ColumnRow(columns: seq<string>, values: seq<Option<string>>): (r: map<string, Option<string>>)
    requires |values| == |columns|
    ensures r.Keys == SetOf(columns)
    decreases |columns|
  {
    if columns == [] then map[]
    else
      var n := |columns| - 1;
      ColumnRow(columns[..n], values[..n])[columns[n] := values[n]]
  }

  /** In a column row, a column takes the value read at its last position in `columns`. */
  lemma {:induction false} ColumnRowValue(columns: seq<string>, values: seq<Option<string>>, i: nat)
    requires |values| == |columns|
    requires i < |columns|
    requires forall j :: i < j < |columns| ==> columns[j] != columns[i]
    ensures ColumnRow(columns, values)[columns[i]] == values[i]
    decreases |columns|
  {
    var n := |columns| - 1;
    if i < n {
      ColumnRowValue(columns[..n], values[..n], i);
    }
  }

  /** The value `select` builds from the replies of its read batch. */
  function Shape<R, D>(columns: Option<seq<string>>, replies: seq<Reply>,
                       decodeRecord: map<string, string> -> R,
                       decodeColumns: map<string, Option<string>> -> D): Option<Selection<R, D>>
    requires columns.None? ==> forall x :: x in replies ==> x.Hash?
    requires columns.Some? ==> forall x :: x in replies ==> x.Values? && |x.values| == |columns.value|
  {
    if |replies| == 0 then None
    else if IsEmptyHash(replies[0]) then None
    else
      var kept := NonEmpty(replies);
      if columns.None? then
        Some(Records(seq(|kept|, i requires 0 <= i < |kept| => decodeRecord(kept[i].fields))))
      else
        Some(Rows(seq(|kept|, i requires 0 <= i < |kept| =>
          decodeColumns(ColumnRow(columns.value, kept[i].values)))))
  }

  /**
   * The result is None exactly when there are no rows or the first row is an
   * empty hash; a row read with columns is never an empty hash, so with
   * columns every row is kept, one mapping per key, whose keys are exactly
   * the requested columns.
   */
  lemma ShapeOutcome<R, D>(columns: Option<seq<string>>, replies: seq<Reply>,
                           decodeRecord: map<string, string> -> R,
                           decodeColumns: map<string, Option<string>> -> D)
    requires columns.None? ==> forall x :: x in replies ==> x.Hash?
    requires columns.Some? ==> forall x :: x in replies ==> x.Values? && |x.values| == |columns.value|
    ensures var result := Shape(columns, replies, decodeRecord, decodeColumns);
      (result.None? <==> |replies| == 0 || IsEmptyHash(replies[0])) &&
      (columns.None? && result.Some? ==>
        result.value.Records? &&
        |result.value.records| == |NonEmpty(replies)| &&
        (forall i :: 0 <= i < |result.value.records| ==>
          result.value.records[i] == decodeRecord(NonEmpty(replies)[i].fields)) &&
        forall rec :: rec in result.value.records <==>
          exists x :: x in replies && !IsEmptyHash(x) && rec == decodeRecord(x.fields)) &&
      (columns.Some? && result.Some? ==>
        result.value.Rows? && |result.value.rows| == |replies| &&
        forall i :: 0 <= i < |replies| ==>
          ColumnRow(columns.value, replies[i].values).Keys == SetOf(columns.value) &&
          result.value.rows[i] == decodeColumns(ColumnRow(columns.value, replies[i].values)))
  {
    var result := Shape(columns, replies, decodeRecord, decodeColumns);
    if result.Some? {
      var kept := NonEmpty(replies);
      if columns.None? {
        var recs := result.value.records;
        forall rec | rec in recs
          ensures exists x :: x in replies && !IsEmptyHash(x) && rec == decodeRecord(x.fields)
        {
          var i :| 0 <= i < |recs| && recs[i] == rec;
          assert kept[i] in kept;
        }
        forall x | x in replies && !IsEmptyHash(x)
          ensures decodeRecord(x.fields) in recs
        {
          var i :| 0 <= i < |kept| && kept[i] == x;
          assert recs[i] == decodeRecord(x.fields);
        }
      } else {
        assert forall x :: x in replies ==> !IsEmptyHash(x);
      }
    }
  }

  // ---------------------------------------------------------------------------
  // Select
  // ---------------------------------------------------------------------------

  /**
   * `result` is what `select` returns when `allKeys` is the sorted key list
   * `ids` resolves to: the shaped replies to reading its page. It is None
   * exactly when the page is empty or, reading whole hashes, the first paged
   * key holds no hash.
   */
  ghost predicate SelectedFrom<R, D>(s: StoreState, c: ModelConfig, columns: Option<seq<string>>,
                                     ids: Option<OneOrMany<string>>, skip: Option<nat>, limit: Option<nat>,
                                     decodeRecord: map<string, string> -> R,
                                     decodeColumns: map<string, Option<string>> -> D,
                                     allKeys: seq<string>, result: Option<Selection<R, D>>)
  {
    Sorted(allKeys) && multiset(allKeys) == ResolvedKeys(c, s, ids) &&
    result == Shape(columns, Reads(s, Page(allKeys, skip, limit), columns), decodeRecord, decodeColumns) &&
    (result.None? <==>
      Page(allKeys, skip, limit) == [] ||
      (columns.None? && HashAt(s, Page(allKeys, skip, limit)[0]) == map[]))
  }

  /** Shaping the replies to the page of the resolved keys gives a result `SelectedFrom` them. */
  lemma SelectOutcome<R, D>(s: StoreState, c: ModelConfig, columns: Option<seq<string>>,
                            ids: Option<OneOrMany<string>>, skip: Option<nat>, limit: Option<nat>,
                            decodeRecord: map<string, string> -> R,
                            decodeColumns: map<string, Option<string>> -> D, allKeys: seq<string>)
    requires Sorted(allKeys) && multiset(allKeys) == ResolvedKeys(c, s, ids)
    ensures SelectedFrom(s, c, columns, ids, skip, limit, decodeRecord, decodeColumns, allKeys,
                         Shape(columns, Reads(s, Page(allKeys, skip, limit), columns), decodeRecord, decodeColumns))
  {
    var replies := Reads(s, Page(allKeys, skip, limit), columns);
    ShapeOutcome(columns, replies, decodeRecord, decodeColumns);
  }

  /**
   * `select`: resolves and sorts the keys, takes the page `skip`/`limit`
   * asks for, reads each key (whole hash or the given columns) and shapes the
   * replies. The sorted key list the page is cut from is unique
   * (`ResolutionIsDeterministic`), so the result is determined by the store.
   */
  method Select<R, D>(redis: Server, c: ModelConfig, columns: Option<seq<string>>,
                      ids: Option<OneOrMany<string>>, skip: Option<nat>, limit: Option<nat>,
                      decodeRecord: map<string, string> -> R,
                      decodeColumns: map<string, Option<string>> -> D)
    returns (result: Option<Selection<R, D>>)
    ensures exists allKeys :: SelectedFrom(redis.State(), c, columns, ids, skip, limit,
                                           decodeRecord, decodeColumns, allKeys, result)
  {
    var allKeys, _ := IdsToPrimaryKeys(redis, c, ids);
    var stop := limit;
    if limit.Some? && skip.Some? {
      stop := Some(limit.value + skip.value);
    }
    var keys := PySlice(allKeys, skip, stop);
    var batch: seq<Command> := [];
    for i := 0 to |keys|
      invariant |batch| == i
      invariant forall j :: 0 <= j < i ==> batch[j] == ReadCommand(keys[j], columns)
    {
      if columns.None? {
        batch := batch + [HGetAll(keys[i])];
      } else {
        batch := batch + [HMGet(keys[i], columns.value)];
      }
    }
    var response := redis.Query(batch);
    assert keys == Page(allKeys, skip, limit);
    assert response == Reads(redis.State(), keys, columns);
    result := Shape(columns, response, decodeRecord, decodeColumns);
    SelectOutcome(redis.State(), c, columns, ids, skip, limit, decodeRecord, decodeColumns, allKeys);
  }
}
