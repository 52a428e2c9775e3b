/** The Redis-backed transaction repository: create, update, delete and
    the lookups, each a pure function (or, where the source iterates over
    an unordered set, a method) from the store to the new store and the
    caller-visible result. Every backend failure becomes an `Err` result
    carrying the fault point that threw. */
module RedisRepository {
  import opened Basics
  import opened Transactions
  import opened HashStore

  /** A `TransactionIOException` wrapping the fault, or the
      `UnsupportedOperationException` of bulk delete. */
  datatype Error = TransactionIO(cause: FaultPoint) | UnsupportedOperation

  /** The repository's configuration and the collaborators whose code is
      not part of this model, each taken as an uninterpreted function:
      key derivation from the prefix and the identity, the serializer
      pair, and the choice of which field of a key's hash is its current
      content. */
  datatype Repo = Repo(
    keyPrefix: Bytes,
    redisKey: (Bytes, Xid) -> Key,
    serialize: Transaction -> Bytes,
    deserialize: Bytes -> Transaction,
    currentField: Hash -> Option<Bytes>)

  function KeyOf(repo: Repo, xid: Xid): (k: Key) {
    repo.redisKey(repo.keyPrefix, xid)
  }

  /** The result of a write: the new store, the count the call returns
      (or the error it throws), and the caller's record as it is
      afterwards. */
  datatype Outcome = Outcome(store: Store, count: Result<int, Error>, tx: Transaction)

  /** Create: set-if-absent of the serialized record under its current
      version. */
  function DoCreate(repo: Repo, s: Store, tx: Transaction, down: set<FaultPoint>): (r: Outcome)
    ensures r.tx == tx
    ensures r.count.Err? <==> Borrow in down || Write(KeyOf(repo, tx.xid)) in down
    ensures r.count.Err? ==> r.store == s && r.count.error.TransactionIO? && r.count.error.cause in down
    ensures r.count == Ok(1) <==> r.count.Ok? && !HasField(s, KeyOf(repo, tx.xid), tx.version)
    ensures r.count == Ok(0) <==> r.count.Ok? && HasField(s, KeyOf(repo, tx.xid), tx.version)
    ensures r.count == Ok(1) ==>
      HasField(r.store, KeyOf(repo, tx.xid), tx.version) && r.store[KeyOf(repo, tx.xid)][tx.version] == repo.serialize(tx)
    ensures r.count != Ok(1) ==> r.store == s
    ensures OnlyAddsField(s, r.store, KeyOf(repo, tx.xid), tx.version)
  {
    var key := KeyOf(repo, tx.xid);
    if Borrow in down then Outcome(s, Err(TransactionIO(Borrow)), tx)
    else if Write(key) in down then Outcome(s, Err(TransactionIO(Write(key))), tx)
    else
      var reply := Hsetnx(s, key, tx.version, repo.serialize(tx));
      Outcome(reply.store, Ok(reply.count), tx)
  }

  /** Update: once a connection is held, stamp the caller's record with
      `now` and bump its version, then set-if-absent the serialized record
      under the new version. The record stays bumped whatever the write
      answers or throws. */
  function DoUpdate(repo: Repo, s: Store, tx: Transaction, now: int, down: set<FaultPoint>): (r: Outcome)
    ensures Borrow in down ==> r == Outcome(s, Err(TransactionIO(Borrow)), tx)
    ensures Borrow !in down ==>
      && r.tx.version == NextVersion(tx.version)
      && r.tx.lastUpdateTime == now
      && r.tx.xid == tx.xid
      && r.tx.payload == tx.payload
    ensures r.count.Err? <==> Borrow in down || Write(KeyOf(repo, tx.xid)) in down
    ensures r.count.Err? ==> r.store == s && r.count.error.TransactionIO? && r.count.error.cause in down
    ensures r.count == Ok(1) <==> r.count.Ok? && !HasField(s, KeyOf(repo, tx.xid), NextVersion(tx.version))
    ensures r.count == Ok(0) <==> r.count.Ok? && HasField(s, KeyOf(repo, tx.xid), NextVersion(tx.version))
    ensures r.count == Ok(1) ==>
      HasField(r.store, KeyOf(repo, tx.xid), r.tx.version) && r.store[KeyOf(repo, tx.xid)][r.tx.version] == repo.serialize(r.tx)
    ensures r.count != Ok(1) ==> r.store == s
    ensures OnlyAddsField(s, r.store, KeyOf(repo, tx.xid), NextVersion(tx.version))
  {
    var key := KeyOf(repo, tx.xid);
    if Borrow in down then Outcome(s, Err(TransactionIO(Borrow)), tx)
    else
      var stamped := tx.(lastUpdateTime := now);
      var bumped := stamped.(version := NextVersion(stamped.version));
      if Write(key) in down then Outcome(s, Err(TransactionIO(Write(key))), bumped)
      else
        var reply := Hsetnx(s, key, bumped.version, repo.serialize(bumped));
        Outcome(reply.store, Ok(reply.count), bumped)
  }

  /** Delete: remove the transaction's key, every version at once. */
  function DoDelete(repo: Repo, s: Store, tx: Transaction, down: set<FaultPoint>): (r: Outcome)
    ensures r.tx == tx
    ensures r.count.Err? <==> Borrow in down || Remove(KeyOf(repo, tx.xid)) in down
    ensures r.count.Err? ==> r.store == s && r.count.error.TransactionIO? && r.count.error.cause in down
    ensures r.count == Ok(1) <==> r.count.Ok? && KeyOf(repo, tx.xid) in s
    ensures r.count == Ok(0) <==> r.count.Ok? && KeyOf(repo, tx.xid) !in s
    ensures r.count.Ok? ==> r.store.Keys == s.Keys - {KeyOf(repo, tx.xid)}
    ensures forall k :: k in r.store ==> k in s && r.store[k] == s[k]
  {
    var key := KeyOf(repo, tx.xid);
    if Borrow in down then Outcome(s, Err(TransactionIO(Borrow)), tx)
    else if Remove(key) in down then Outcome(s, Err(TransactionIO(Remove(key))), tx)
    else
      var reply := Del(s, key);
      Outcome(reply.store, Ok(reply.count), tx)
  }

  /** FindOne: borrow a connection, read the key's current content and
      deserialize it; `None` when there is no content. */
  function DoFindOne(repo: Repo, s: Store, xid: Xid, down: set<FaultPoint>): (r: Result<Option<Transaction>, Error>)
    ensures r.Err? <==> Borrow in down || Read(KeyOf(repo, xid)) in down
    ensures r.Err? ==> r.error.TransactionIO? && r.error.cause in down
    ensures r.Ok? && KeyOf(repo, xid) !in s ==> r.value == None
    ensures r.Ok? && KeyOf(repo, xid) in s ==>
      match repo.currentField(s[KeyOf(repo, xid)])
      case None => r.value == None
      case Some(b) => r.value == Some(repo.deserialize(b))
  {
    var key := KeyOf(repo, xid);
    if Borrow in down then Err(TransactionIO(Borrow))
    else if Read(key) in down then Err(TransactionIO(Read(key)))
    else
      var content := GetKeyValue(s, key, repo.currentField);
      if content.Some? then Ok(Some(repo.deserialize(content.value))) else Ok(None)
  }

  /** The records FindAll gathers when it visits `order`: one per key
      with content, in visiting order, keys without content skipped. */
  function Collect(repo: Repo, s: Store, order: seq<Key>): (r: seq<Transaction>)
    ensures |r| <= |order|
    ensures forall i :: 0 <= i < |order| && GetKeyValue(s, order[i], repo.currentField).Some? ==>
      repo.deserialize(GetKeyValue(s, order[i], repo.currentField).value) in r
    ensures forall t :: t in r ==>
      exists i :: (0 <= i < |order| && GetKeyValue(s, order[i], repo.currentField).Some? &&
        t == repo.deserialize(GetKeyValue(s, order[i], repo.currentField).value))
    decreases |order|
  {
    if |order| == 0 then []
    else
      var init := order[..|order| - 1];
      var content := GetKeyValue(s, order[|order| - 1], repo.currentField);
      Collect(repo, s, init) + (if content.Some? then [repo.deserialize(content.value)] else [])
  }

  /** `order` lists every key of `keys` exactly once. */
  ghost predicate Enumerates(order: seq<Key>, keys: set<Key>) {
    && (forall i, j :: 0 <= i < j < |order| ==> order[i] != order[j])
    && (forall k :: k in order <==> k in keys)
  }

  /** FindAll: enumerate the keys under the prefix, then read and
      deserialize each one's content in whatever order the key set
      yields them (the ghost `order`). The first call that throws aborts
      the whole scan. */
  method DoFindAll(repo: Repo, s: Store, down: set<FaultPoint>)
      returns (r: Result<seq<Transaction>, Error>, ghost order: seq<Key>)
    ensures r.Err? <==>
      Borrow in down || Scan in down || exists k :: k in Keys(s, repo.keyPrefix) && Read(k) in down
    ensures r.Err? ==> r.error.TransactionIO? && r.error.cause in down
    ensures r.Ok? ==> Enumerates(order, Keys(s, repo.keyPrefix)) && r.value == Collect(repo, s, order)
  {
    order := [];
    if Borrow in down {
      return Err(TransactionIO(Borrow)), order;
    }
    if Scan in down {
      return Err(TransactionIO(Scan)), order;
    }
    var keys := Keys(s, repo.keyPrefix);
    var remaining := keys;
    var transactions: seq<Transaction> := [];
    while remaining != {}
      invariant remaining <= keys
      invariant forall k :: k in order <==> k in keys && k !in remaining
      invariant forall i, j :: 0 <= i < j < |order| ==> order[i] != order[j]
      invariant forall k :: k in order ==> Read(k) !in down
      invariant transactions == Collect(repo, s, order)
      decreases remaining
    {
      var key :| key in remaining;
      if Read(key) in down {
        return Err(TransactionIO(Read(key))), order;
      }
      var content := GetKeyValue(s, key, repo.currentField);
      if content.Some? {
        transactions := transactions + [repo.deserialize(content.value)];
      }
      assert (order + [key])[..|order|] == order;
      order := order + [key];
      remaining := remaining - {key};
    }
    return Ok(transactions), order;
  }

  /** The records of `txs` last updated strictly before `date`, in their
      original order. */
  function UnmodifiedSince(txs: seq<Transaction>, date: int): (r: seq<Transaction>)
    ensures |r| <= |txs|
    ensures forall i :: 0 <= i < |r| ==> r[i].lastUpdateTime < date
    decreases |txs|
  {
    if |txs| == 0 then []
    else
      var last := txs[|txs| - 1];
      UnmodifiedSince(txs[..|txs| - 1], date) + (if last.lastUpdateTime < date then [last] else [])
  }

  /** FindAllUnmodifiedSince: FindAll, then keep the records whose last
      update time compares strictly below `date`. */
  method DoFindAllUnmodifiedSince(repo: Repo, s: Store, date: int, down: set<FaultPoint>)
      returns (r: Result<seq<Transaction>, Error>, ghost order: seq<Key>)
    ensures r.Err? <==>
      Borrow in down || Scan in down || exists k :: k in Keys(s, repo.keyPrefix) && Read(k) in down
    ensures r.Err? ==> r.error.TransactionIO? && r.error.cause in down
    ensures r.Ok? ==>
      Enumerates(order, Keys(s, repo.keyPrefix)) && r.value == UnmodifiedSince(Collect(repo, s, order), date)
  {
    var all;
    all, order := DoFindAll(repo, s, down);
    if all.Err? {
      return Err(all.error), order;
    }
    var kept := KeepUnmodifiedSince(all.value, date);
    return Ok(kept), order;
  }

  /** The filtering loop of FindAllUnmodifiedSince: walk the records in
      order and append each one last updated before `date`. */
  method KeepUnmodifiedSince(all: seq<Transaction>, date: int) returns (kept: seq<Transaction>)
    ensures kept == UnmodifiedSince(all, date)
  {
    kept := [];
    var i := 0;
    while i < |all|
      invariant 0 <= i <= |all|
      invariant kept == UnmodifiedSince(all[..i], date)
    {
      var t := all[i];
      if t.lastUpdateTime < date {
        kept := kept + [t];
      }
      assert all[..i + 1][..i] == all[..i];
      i := i + 1;
    }
    assert all[..i] == all;
  }

  /** DeleteAll: always refused, and the store is left alone. */
  function DeleteAll(s: Store): (r: (Store, Result<(), Error>))
    ensures r.0 == s
    ensures r.1 == Err(UnsupportedOperation)
  {
    (s, Err(UnsupportedOperation))
  }
}
