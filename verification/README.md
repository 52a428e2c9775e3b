# Versioned transaction-record repository, modelled in Dafny

This project models `RedisTransactionRepository`, the durable store of a
Try-Confirm-Cancel transaction coordinator. Each transaction identity
(`Xid`) maps to one Redis key. That key holds a hash from version number
to serialized transaction record. The repository creates, updates,
deletes and scans those records. Optimistic concurrency comes from
Redis's atomic set-if-absent (`HSETNX`).

The store is an immutable `map<Key, map<i64, Bytes>>`. The Redis commands
are pure functions in module `HashStore`: `Hsetnx`, `Del`, `Keys` and
`GetKeyValue`. Each write command is one atomic step; a scan reads one
snapshot of the store (see "## Left out"). The repository operations
in module `RedisRepository` take the store, the caller's record and, for
update, the time `now`. They return the new store, the count or error
the Java method returns or throws, and the caller's record as it is
afterwards. The last part makes update's in-place mutation explicit.

Backend failures are a parameter `down: set<FaultPoint>`. It lists the
calls that throw in this run. `Borrow` is a failure to borrow a
connection from the pool, whether through `RedisHelper.execute` or in
the read done by `RedisHelper.getKeyValue`. The other fault points are
the HSETNX, DEL and KEYS commands and the read of one key. A thrown call
becomes `Err(TransactionIO(cause))` and never a silent success.

Files:
- `basics.dfy`: bytes, Java `long` as `i64`, `Option` and `Result`.
- `transaction.dfy`: the `Xid` and `Transaction` record, and Java's wrapping `version + 1`.
- `hash_store.dfy`: the abstract Redis hash store and its commands.
- `repository.dfy`: the repository operations.
- `properties.dfy`: properties that relate several calls.

Where the documented intent and the code differ, the model follows the
code:
- Update bumps the version and stamps the time before it writes. The
  caller's record is therefore advanced even when the write returns 0 or
  HSETNX throws. It is only left untouched when no connection could be
  borrowed, because the mutation runs inside the connection callback.
- The code promises no monotonic `lastUpdateTime`. The time is whatever
  `now` the caller's clock gives.
- The version is a Java `long`, so `Long.MAX_VALUE + 1` wraps to
  `Long.MIN_VALUE` (`Transactions.NextVersion`).

## Model

| member | source | states |
|---|---|---|
| `Transactions.NextVersion` | compensable-transaction-core/src/main/java/org/mengyun/compensable/transaction/repository/RedisTransactionRepository.java:79 | the bumped version is congruent to the old one plus 1 modulo 2^64, which is exactly old plus 1 below `Long.MAX_VALUE` |
| `HashStore.Hsetnx` | compensable-transaction-core/src/main/java/org/mengyun/compensable/transaction/repository/RedisTransactionRepository.java:60 | HSETNX replies 1 iff the field was absent and then holds the value; on 0 the store is unchanged; no other field anywhere is added, lost or overwritten |
| `HashStore.Keys` | compensable-transaction-core/src/main/java/org/mengyun/compensable/transaction/repository/RedisTransactionRepository.java:147 | KEYS prefix* yields exactly the stored keys that start with the prefix |
| `HashStore.GetKeyValue` | compensable-transaction-core/src/main/java/org/mengyun/compensable/transaction/repository/RedisTransactionRepository.java:112 | a missing key has no content; an existing key's content is the uninterpreted current-field read of its hash |
| `HashStore.Del` | compensable-transaction-core/src/main/java/org/mengyun/compensable/transaction/repository/RedisTransactionRepository.java:97 | DEL replies 1 iff the key existed, removes that key with all its fields, and leaves every other key as it was |
| `RedisRepository.DoCreate` | compensable-transaction-core/src/main/java/org/mengyun/compensable/transaction/repository/RedisTransactionRepository.java:51-68 | create throws an I/O error iff the connection or the HSETNX fails, leaving the store alone; otherwise it returns 1 iff the (key, version) field was absent and now holds the serialized record, and 0 with the store unchanged if present; nothing beyond that field changes and the record is not mutated |
| `RedisRepository.DoUpdate` | compensable-transaction-core/src/main/java/org/mengyun/compensable/transaction/repository/RedisTransactionRepository.java:70-88 | with a connection, the caller's record gets version+1 and time `now` whatever the write answers; the write returns 1 iff the new version field was absent and stores the bumped record there, and 0 otherwise without overwriting; without a connection nothing changes and an I/O error is thrown |
| `RedisRepository.DoDelete` | compensable-transaction-core/src/main/java/org/mengyun/compensable/transaction/repository/RedisTransactionRepository.java:90-104 | delete returns 1 iff the key existed and 0 otherwise, removes every version of that key and nothing else; a failure is an I/O error with the store unchanged |
| `RedisRepository.DoFindOne` | compensable-transaction-core/src/main/java/org/mengyun/compensable/transaction/repository/RedisTransactionRepository.java:106-121 | lookup throws iff the connection borrow or the read throws; a missing key or a key with no current content gives "not found"; otherwise it gives the deserialized current content |
| `RedisRepository.Collect` | compensable-transaction-core/src/main/java/org/mengyun/compensable/transaction/repository/RedisTransactionRepository.java:151-157 | every record the scan returns is the deserialized content of a visited key, every visited key with content contributes its record, and there are never more records than keys |
| `RepositoryProperties.CollectSelectsInOrder` | compensable-transaction-core/src/main/java/org/mengyun/compensable/transaction/repository/RedisTransactionRepository.java:151-157 | the scan returns exactly one record per visited key that has current content, in visiting order, and skips exactly the keys without content |
| `RedisRepository.DoFindAll` | compensable-transaction-core/src/main/java/org/mengyun/compensable/transaction/repository/RedisTransactionRepository.java:139-163 | the scan fails iff the connection, the KEYS command or the read of some matching key throws; on success it visits every key under the prefix exactly once and returns the records collected in that order |
| `RedisRepository.UnmodifiedSince` | compensable-transaction-core/src/main/java/org/mengyun/compensable/transaction/repository/RedisTransactionRepository.java:128-136 | every record the sweep keeps was last updated strictly before the threshold, and the sweep is never longer than its input |
| `RedisRepository.KeepUnmodifiedSince` | compensable-transaction-core/src/main/java/org/mengyun/compensable/transaction/repository/RedisTransactionRepository.java:128-136 | the filtering loop returns the same list as the recursive definition of the sweep |
| `RedisRepository.DoFindAllUnmodifiedSince` | compensable-transaction-core/src/main/java/org/mengyun/compensable/transaction/repository/RedisTransactionRepository.java:123-137 | fails exactly when FindAll fails; otherwise it returns the sweep of the FindAll records for the threshold |
| `RedisRepository.DeleteAll` | compensable-transaction-core/src/main/java/org/mengyun/compensable/transaction/repository/RedisTransactionRepository.java:165-168 | bulk delete always fails with UnsupportedOperation and the store is unchanged |
| `RepositoryProperties.CreateTwiceConflicts` | compensable-transaction-core/src/main/java/org/mengyun/compensable/transaction/repository/RedisTransactionRepository.java:55-64 | after a create wins a (key, version) field, a second create of that field returns 0, changes nothing, and the first writer's bytes remain |
| `RepositoryProperties.UpdateRaceHasOneWinner` | compensable-transaction-core/src/main/java/org/mengyun/compensable/transaction/repository/RedisTransactionRepository.java:73-84 | two updates of possibly different records with the same key and prior version: the second returns 0 and changes nothing, the stored bytes are the first writer's, and both callers' records carry the next version |
| `RepositoryProperties.DeleteTwiceIsNoop` | compensable-transaction-core/src/main/java/org/mengyun/compensable/transaction/repository/RedisTransactionRepository.java:90-104 | deleting again after a delete returns 0 and leaves the store as the first delete left it |
| `RepositoryProperties.DeleteThenFindOneIsNone` | compensable-transaction-core/src/main/java/org/mengyun/compensable/transaction/repository/RedisTransactionRepository.java:93-117 | after a delete, lookup of the same identity gives "not found", whatever field the store treats as current |
| `RepositoryProperties.CreateThenFindOne` | compensable-transaction-core/src/main/java/org/mengyun/compensable/transaction/repository/RedisTransactionRepository.java:52-121 | a create under a fresh key returns 1 and a following lookup returns the deserialized bytes written, when the current-field read returns the only field of a one-field hash |
| `RepositoryProperties.CreatedRecordIsScanned` | compensable-transaction-core/src/main/java/org/mengyun/compensable/transaction/repository/RedisTransactionRepository.java:140-163 | a record created under a fresh key under the prefix is among the scanned records, whatever order the scan visits the keys in |
| `RepositoryProperties.CreateUpdateDeleteScenario` | compensable-transaction-core/src/main/java/org/mengyun/compensable/transaction/repository/RedisTransactionRepository.java:52-121 | create returns 1 and is found; update returns 1, advances the record to version+1 and stores that version; delete returns 1 and the identity is then not found |
| `RepositoryProperties.ApplyKeepsWellFormed` | compensable-transaction-core/src/main/java/org/mengyun/compensable/transaction/repository/RedisTransactionRepository.java:52-104 | a single create, update or delete never leaves a key holding an empty hash |
| `RepositoryProperties.RunKeepsWellFormed` | compensable-transaction-core/src/main/java/org/mengyun/compensable/transaction/repository/RedisTransactionRepository.java:52-104 | no sequence of creates, updates and deletes leaves a key holding an empty hash |
| `RepositoryProperties.RunNeverOverwrites` | compensable-transaction-core/src/main/java/org/mengyun/compensable/transaction/repository/RedisTransactionRepository.java:52-104 | versions are append-only: through any sequence of writes that does not delete a key, every version field of that key keeps its bytes |
| `RepositoryProperties.UpdatesAdvanceVersion` | compensable-transaction-core/src/main/java/org/mengyun/compensable/transaction/repository/RedisTransactionRepository.java:71-88 | N updates into unwritten versions each return 1; the record ends at its start version plus N with the last `now`, and it is stored under that version |
| `RepositoryProperties.UnmodifiedSinceSelectsInOrder` | compensable-transaction-core/src/main/java/org/mengyun/compensable/transaction/repository/RedisTransactionRepository.java:126-136 | the sweep is the order-preserving selection of exactly the positions whose time is strictly before the threshold; a time equal to it is excluded |
| `RepositoryProperties.UnmodifiedSinceMembers` | compensable-transaction-core/src/main/java/org/mengyun/compensable/transaction/repository/RedisTransactionRepository.java:130-134 | a record is in the sweep result iff it is in the input and its last update time is strictly before the threshold; a time equal to the threshold is excluded |
| `RepositoryProperties.UnmodifiedSinceConcat` | compensable-transaction-core/src/main/java/org/mengyun/compensable/transaction/repository/RedisTransactionRepository.java:128-136 | sweeping a concatenation equals concatenating the sweeps of the parts |
| `RepositoryProperties.UnmodifiedSinceNarrows` | compensable-transaction-core/src/main/java/org/mengyun/compensable/transaction/repository/RedisTransactionRepository.java:126-136 | sweeping with an earlier threshold after a later one equals the earlier sweep alone, so equal thresholds make the sweep idempotent |

## Left out

- Connection handling: `JedisPool`, `RedisHelper.execute` and connection release are not modelled. A failed connection borrow is the fault point `Borrow`.
- Key derivation: `RedisHelper.getRedisKey` is not part of this model. It is the uninterpreted function `Repo.redisKey` applied to the prefix and the identity.
- Current field: `RedisHelper.getKeyValue` is not part of this model. Which field of a hash counts as current is the uninterpreted `Repo.currentField`, and the model does not claim it is the highest version. A key that does not exist is assumed to have no content.
- Serialization: `TransactionSerializer` and the pluggable `ObjectSerializer` are the uninterpreted functions `Repo.serialize` and `Repo.deserialize`. Their round trip is not proved, and a deserialization that throws is not modelled. A serialization that throws inside the HSETNX callback is folded into the fault point `Write(key)`: it has the same outcome, an I/O error with the store unchanged and, in update, the record already bumped.
- Version encoding: `ByteUtils.longToBytes` is not part of this model. The version number itself is the hash field.
- Wall clock: `new Date()` is the `now` parameter of update.
- Key enumeration: KEYS with pattern `prefix*` is read as "every key starting with the prefix". Glob metacharacters inside the prefix are not modelled.
- Caching: the parent class `CachableTransactionRepository` is not part of this model.
- Concurrency: processes are not modelled. Each create, update and delete is one atomic Redis command, and races between them appear only as sequential interleavings of those commands.
- RedisRepository.DoFindAll: the scan is an atomic snapshot. KEYS and every per-key read see the same store, although the code issues them as separate commands on separate connections. A write or delete between the KEYS reply and a key's read is therefore not modelled, and the skip of a key whose content vanished in between is reached only through `currentField` returning no content.
- Lost replies: a command that throws is taken not to have been applied. A write the server applied before its reply was lost is not modelled.
- Setters: `setKeyPrefix`, `setSerializer` and `setJedisPool` are not operations here. The configuration is the `Repo` value, and the default prefix "TCC:" is one possible `keyPrefix`.
- Reply width: `statusCode.intValue()` narrows a `Long` to `int`. HSETNX and DEL on one key reply 0 or 1, so the narrowing never matters and is not modelled.
- Null times: a record whose `lastUpdateTime` is null would throw in the sweep. Every modelled record has a time.
