# pydantic-aioredis record layer, modelled in Dafny

This project models the record layer of pydantic-aioredis (`pydantic_aioredis/model.py`).
The record layer stores typed records in Redis. Each record is one hash, at a key built from the
record class's naming attributes and the record's primary-key value. A per-class set, the table
index, holds the keys of the stored records.

The modules follow the program's structure:

- `wrappers.dfy` (`Wrappers`): `Option` for Python's `Optional`, and `OneOrMany` for arguments that
  are a single value or a list.
- `string_order.dfy` (`StringOrder`): Python's `<=` on `str` and the in-place `keys.sort()`, an
  insertion sort on an `array`. It proves that a sorted arrangement of a multiset of keys is unique.
- `keys.dfy` (`Keys`): `_prefix`, `_separator`, `_tablename`, the record key (`__get_primary_key`)
  and the table index key (`get_table_index_key`).
- `redis.dfy` (`Redis`): the part of Redis the layer uses, which is hashes, sets, expiry times,
  and a pipeline applied command by command. `Server` is a class whose fields the pipeline
  updates. Its `Execute` and `Query` methods are proved against the batch semantics `ApplyAll`.
- `record_model.dfy` (`RecordModel`): `_ids_to_primary_keys`, `insert`, `update`, `delete` and
  `select`. Each operation builds the pipeline batch the source queues and runs it on the
  server. The effect of the batch is stated as lemmas over `ApplyAll`.

Record values enter the model only through their primary key and their serialized mapping. The
codec (`serialize_partially`, `deserialize_partially`) and the record constructor are passed in
as functions, and nothing is assumed about them.

Three behaviours of the code worth knowing:

- With `columns`, `HMGET` replies with a list. A list never equals `{}`, so the "first row is an
  empty hash" test never fires, and every requested key gives a row, even a key that holds no
  record. `ShapeOutcome` and `Select` state this.
- Without `columns`, only the first reply decides whether the result is `None`. Later empty
  hashes (keys with no record) are dropped from the list.
- Without a prefix, the record whose primary key is `__index` has the same key as the table
  index (`Keys.IndexKeySharedWithRecordKey`). Record keys of one class are still injective in the
  primary key (`Keys.RecordKeyInjective`).

## Model

| member | source | states |
|---|---|---|
| Keys.Lower | pydantic_aioredis/model.py:33 | `.lower()` moves each upper-case letter to its lower-case counterpart and keeps every other character, so the length is kept and no upper-case letter remains |
| Keys.LowerIdempotent | pydantic_aioredis/model.py:33 | lower-casing an already lower-cased name changes nothing |
| Keys.Prefix | pydantic_aioredis/model.py:30-33 | no declared prefix gives ""; a declared one is that prefix lower-cased character by character |
| Keys.Separator | pydantic_aioredis/model.py:35-38 | no declared separator gives ":"; a declared one is that separator lower-cased character by character |
| Keys.TableName | pydantic_aioredis/model.py:40-43 | a declared table name is used verbatim; otherwise it is the class name lower-cased |
| Keys.RecordKeyFormat | pydantic_aioredis/model.py:45-58 | the record key is `{p}{s}{t}{s}{k}` with a non-empty prefix and `{t}{s}{k}` without one |
| Keys.RecordKeyInjective | pydantic_aioredis/model.py:57-58 | within one class, two record keys are equal if and only if their primary keys are equal |
| Keys.RecordKeyRecoversPrimaryKey | pydantic_aioredis/model.py:57-58 | a record key is the class's key stem followed by the primary key, so the primary key can be recovered from it |
| Keys.IndexKeyIgnoresPrefix | pydantic_aioredis/model.py:60-63 | the table index key is the same whatever prefix the class declares |
| Keys.IndexKeySharedWithRecordKey | pydantic_aioredis/model.py:57-63 | without a prefix, the record key of primary key `__index` is the table index key |
| Keys.DefaultStem | examples/benchmarks/test_benchmarks.py:158-163 | class `Book` with no naming attributes has the key stem `book:` |
| Keys.PrefixStem | examples/benchmarks/test_benchmarks.py:186-191 | prefix `prefix` gives the key stem `prefix:modelwithprefix:` |
| Keys.SeparatorStem | examples/benchmarks/test_benchmarks.py:193-198 | separator `!!` gives the key stem `modelwithseparator!!` |
| Keys.TableNameStem | examples/benchmarks/test_benchmarks.py:200-205 | table name `tablename` gives the key stem `tablename:` |
| Keys.FullCustomStem | examples/benchmarks/test_benchmarks.py:207-212 | prefix, separator and table name together give the key stem `prefix!!custom!!` |
| StringOrder.LexLeReflexive | pydantic_aioredis/model.py:81 | every string is `<=` itself |
| StringOrder.LexLeTotal | pydantic_aioredis/model.py:81 | any two strings are comparable with `<=` |
| StringOrder.LexLeAntisymmetric | pydantic_aioredis/model.py:81 | `a <= b` and `b <= a` hold together only for equal strings |
| StringOrder.LexLeTransitive | pydantic_aioredis/model.py:81 | `<=` on strings is transitive |
| StringOrder.SortedUnique | pydantic_aioredis/model.py:81 | two sorted lists with the same multiset of keys are equal |
| StringOrder.SortInPlace | pydantic_aioredis/model.py:81 | `keys.sort()` leaves the array sorted ascending and a permutation of its old content |
| Redis.ApplyAllReplies | pydantic_aioredis/model.py:116 | a pipeline replies once per queued command; reads of whole hashes reply with a hash, column reads with one value per column |
| Redis.ApplyAllConcat | pydantic_aioredis/model.py:103-116 | running two batches one after the other leaves the store as running their concatenation does |
| Redis.ApplyAllConcatReplies | pydantic_aioredis/model.py:116 | the replies to a concatenated batch are the replies to its first part followed by those to its second part |
| Redis.ApplyAllSingle | pydantic_aioredis/model.py:116 | a batch of one command has that command's effect and reply |
| Redis.HSetEffect | pydantic_aioredis/model.py:107 | `hset` merges the mapping into the one hash, so the key exists afterwards if the mapping was non-empty or it existed before; no set, expiry or other hash changes |
| Redis.ExpireEffect | pydantic_aioredis/model.py:110 | `expire` records the time of an existing key and does nothing for a missing one; the expiry map changes only there, and no hash or set changes |
| Redis.SAddEffect | pydantic_aioredis/model.py:113 | `sadd` adds one member to the one set and changes nothing else |
| Redis.DelEffect | pydantic_aioredis/model.py:158 | `delete` removes every listed key with its expiry; unlisted hashes and sets stay |
| Redis.SRemEffect | pydantic_aioredis/model.py:160 | `srem` removes the listed members from the one set and changes no hash and no other set |
| Redis.ReadsChangeNothing | pydantic_aioredis/model.py:183-190 | a batch of reads leaves the store as it was, and the i-th reply answers the i-th read |
| Redis.HashValuesRead | pydantic_aioredis/model.py:188 | `hmget` gives one value per requested field: the field's value when the hash has it, else None |
| Redis.Server.Execute | pydantic_aioredis/model.py:116 | the server's new state and the replies are those of the batch applied in order |
| Redis.Server.Query | pydantic_aioredis/model.py:190 | a read-only batch gives one reply per read, each answered from the current state |
| Redis.Server.Scan | pydantic_aioredis/model.py:72-73 | the scan yields every member of the index set exactly once, in some order |
| RecordModel.IdsToPrimaryKeys | pydantic_aioredis/model.py:65-82 | the keys are sorted and are a permutation of the index's members (no ids) or of the ids' record keys; the second result is the index key |
| RecordModel.SingleIdIsOneElementList | pydantic_aioredis/model.py:75-80 | a single id resolves like the one-element list holding it, to its record key alone |
| RecordModel.ResolutionIsDeterministic | pydantic_aioredis/model.py:81 | the resolved key list depends only on the ids and the store, not on the scan's order |
| RecordModel.WriteEffectSets | pydantic_aioredis/model.py:107-115 | one record's write block adds its key to the index and changes no other set |
| RecordModel.WriteEffectHashes | pydantic_aioredis/model.py:107-115 | one record's write block merges its mapping into its hash and changes no other hash |
| RecordModel.WriteEffectTtl | pydantic_aioredis/model.py:109-115 | without a life span no expiry changes; with one, the index gets it, the record key gets it when the key exists after `hset`, and every other key keeps its expiry |
| RecordModel.WriteEffect | pydantic_aioredis/model.py:134-143 | the block `update` queues: the index gains the record's key, the record's hash gains the mapping, the expiries follow the rule above, and no other set, hash or expiry changes |
| RecordModel.WriteSteps | pydantic_aioredis/model.py:107-115 | the write block's commands take effect in the order they are queued |
| RecordModel.InsertSplit | pydantic_aioredis/model.py:103-116 | an insert of n records is the insert of the first n-1 followed by the last record's write block |
| RecordModel.InsertBatchCovers | pydantic_aioredis/model.py:103-115 | every record gets its `hset`, its `sadd` into the index and, with a life span, both `expire`s |
| RecordModel.InsertBatchOnlyWrites | pydantic_aioredis/model.py:103-115 | an insert queues only `hset`, `sadd` and `expire`; every `expire` carries the life span, so there is none without one |
| RecordModel.InsertBatchLength | pydantic_aioredis/model.py:103-115 | an insert queues two commands per record, or four with a life span |
| RecordModel.InsertIndexEffect | pydantic_aioredis/model.py:103-116 | after an insert, the index holds its old members plus exactly the inserted keys, and no other set changes |
| RecordModel.InsertHashEffect | pydantic_aioredis/model.py:103-116 | after an insert, the hash at every key is its old content merged with the mappings of the records with that key, in batch order |
| RecordModel.InsertedFieldsOutside | pydantic_aioredis/model.py:103-107 | an insert writes no field to a key that is not an inserted record key |
| RecordModel.InsertedFieldsCover | pydantic_aioredis/model.py:103-107 | every field of every inserted record is written to that record's key |
| RecordModel.InsertedFieldsDistinct | pydantic_aioredis/model.py:103-107 | when the records' keys are distinct, the fields written to a record's key are exactly that record's mapping |
| RecordModel.InsertTtlEffect | pydantic_aioredis/model.py:109-116 | without a life span no expiry changes; with one, the index (after a non-empty insert) and the key of every record with fields carry it, and no key the insert does not write changes its expiry |
| RecordModel.InsertEffect | pydantic_aioredis/model.py:103-116 | applying an insert batch gives all of the index, hash and expiry facts above together: with distinct keys each record's hash is its old content plus its mapping |
| RecordModel.Insert | pydantic_aioredis/model.py:84-118 | the store becomes the insert batch applied to it and the response is the batch's replies; with `life_span_seconds` given it is the life span of those facts, otherwise the store's default is |
| RecordModel.QueueInserts | pydantic_aioredis/model.py:103-115 | the loop queues exactly the insert batch: one write block per record, in order |
| RecordModel.Update | pydantic_aioredis/model.py:120-145 | for a dict, the write block's facts hold (key indexed, fields merged, expiries by the same rule as insert, with `life_span_seconds` when given, else the store's default) and nothing else changes; for a non-dict nothing changes and the response is empty |
| RecordModel.DeleteEffect | pydantic_aioredis/model.py:158-161 | the delete batch removes the listed hashes, takes the listed keys out of the index, and keeps every other hash and index member |
| RecordModel.DeleteResolved | pydantic_aioredis/model.py:154-161 | over the resolved keys: their hashes are gone, other hashes stay, they leave the index, and deleting with no ids empties the index |
| RecordModel.Delete | pydantic_aioredis/model.py:147-162 | the result is None if and only if no key resolves, and then nothing changes; otherwise the resolved records are deleted and leave the index, everything else stays, and the result is the replies of the delete pipeline |
| RecordModel.PageWindow | pydantic_aioredis/model.py:179-182 | the page is the keys from position `skip` on, at most `limit` of them, cut at the end of the list |
| RecordModel.PageCases | pydantic_aioredis/model.py:180-182 | the slice for each of the four combinations of `skip` and `limit` being given or not |
| RecordModel.Reads | pydantic_aioredis/model.py:183-190 | one reply per key, in order: the key's whole hash, or the `hmget` values of the requested columns from the key's hash |
| RecordModel.NonEmpty | pydantic_aioredis/model.py:199-203 | the filter `record != {}` keeps exactly the replies that are not an empty hash and never lengthens the list |
| RecordModel.NonEmptyAppend | pydantic_aioredis/model.py:199-203 | filtering a concatenation is the concatenation of the filtered parts, so kept replies stay in their order |
| RecordModel.NonEmptySingle | pydantic_aioredis/model.py:202 | a single reply is kept exactly when it is not `{}` |
| RecordModel.ColumnRow | pydantic_aioredis/model.py:207-210 | the row built from a column read has exactly the requested columns as its keys |
| RecordModel.ColumnRowValue | pydantic_aioredis/model.py:207-210 | a column that is not repeated later in `columns` maps to the value read at its position |
| RecordModel.ShapeOutcome | pydantic_aioredis/model.py:192-215 | None exactly when there is no reply or the first reply is an empty hash; without columns, the i-th record is decoded from the i-th non-empty hash, one per non-empty hash; with columns, there is one row per key, in order |
| RecordModel.SelectOutcome | pydantic_aioredis/model.py:179-215 | for a sorted resolved key list, the shaped replies to its page are None if and only if the page is empty or, without columns, the first paged key holds no hash |
| RecordModel.Select | pydantic_aioredis/model.py:164-215 | for some sorted list of the resolved keys (unique by `ResolutionIsDeterministic`), the result is the shaped replies to reading its page, and None exactly in the cases above |

## Left out

- Python's `str.lower()` is modelled on ASCII letters only. Other Unicode case mappings are not modelled.
- Primary-key values and ids are modelled as the text the f-string makes of them.
- The codec (`serialize_partially`, `deserialize_partially`) and `cls(**...)` are opaque function parameters. `abstract.py`, which defines them, is not part of this model.
- `bytes_to_string` is the identity here, because the store is modelled with text values.
- The async transport is left out: pipelines, `await` and the connection. The index scan (`sscan_iter`) is modelled as yielding the set's members in an arbitrary order. Concurrent changes during the scan are not modelled.
- Redis's single keyspace, where one key holds either a hash or a set and the wrong kind is refused (WRONGTYPE), is not modelled. Hashes and sets are separate maps.
- `HSET` with an empty mapping makes the Redis client raise (`DataError` in redis-py) while the command is queued inside `async with pipeline`, so the whole `insert` or `update` call raises and nothing of its batch is sent. The model instead treats that `hset` as a no-op and runs the rest of the write block: `update(id, {})` indexes the key and sets the expiries in the model, where the source raises.
- Expiry is recorded as a number per key. Keys do not actually expire, and `expire` with a time of 0 or less is not modelled.
- `HMGET` with an empty column list is not rejected as the server would reject it.
- Negative `skip` and `limit` are not modelled; they are `nat`. Python slices with negative bounds would count from the end.
- Scan: `sscan_iter` may yield a member more than once when the set changes during the scan, which would duplicate a key in `select` and `delete`. The model yields each member exactly once.
- InsertTtlEffect: a record whose serialized mapping is empty makes the source's `insert` raise before anything is sent (see the `HSET` line above); the model runs the batch with that `hset` as a no-op, and states the record key's expiry only for records with fields.
- Record validation on construction, the auto-save mutation buffer (`set_auto_sync`, `save`), and the store's model registration are not part of this model. They live outside `model.py`.
- RecordModel.Insert, RecordModel.Update and RecordModel.Delete state the replies only as "the batch's replies". The meaning of each reply (the counts Redis returns) is modelled in `Redis.Apply` but not restated as lemmas.
