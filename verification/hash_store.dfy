/** The backing store as the repository sees it: every key holds a hash
    whose fields are version numbers and whose values are serialized
    records. Each primitive below is one Redis command and is one atomic
    step of the model. */
module HashStore {
  import opened Basics

  type Key = Bytes

  /** The fields of one key: version -> serialized record. */
  type Hash = map<i64, Bytes>

  type Store = map<Key, Hash>

  /** The places where a call into the store can throw instead of
      answering: borrowing a connection from the pool, the HSETNX, DEL and
      KEYS commands, and the read of one key's current content. */
  datatype FaultPoint = Borrow | Write(key: Key) | Remove(key: Key) | Scan | Read(key: Key)

  /** What a write command leaves behind: the new store and the integer
      reply Redis sends back. */
  datatype Reply = Reply(store: Store, count: int)

  predicate HasField(s: Store, k: Key, f: i64) {
    k in s && f in s[k]
  }

  /** Redis removes a hash once its last field is gone, so no key ever
      holds an empty hash. In a store with this property, a key is in the
      map exactly when Redis would report it as existing, which is what
      makes the 1/0 reply of `Del` and the "not found" of a missing key
      agree with Redis in every reachable store. */
  ghost predicate WellFormed(s: Store) {
    forall k :: k in s ==> |s[k]| > 0
  }

  /** No field of `s` is lost or overwritten in `s'`. */
  ghost predicate KeepsFields(s: Store, s': Store) {
    forall k :: k in s ==> k in s' && forall f :: f in s[k] ==> f in s'[k] && s'[k][f] == s[k][f]
  }

  /** `s'` differs from `s` at most by the field `f` of key `k`, and if
      that field was already there it still holds its old value. */
  ghost predicate OnlyAddsField(s: Store, s': Store, k: Key, f: i64) {
    && KeepsFields(s, s')
    && s'.Keys <= s.Keys + {k}
    && forall k' :: k' in s' ==> forall f' :: f' in s'[k'] ==> (k' == k && f' == f) || HasField(s, k', f')
  }

  /** HSETNX key field value: sets the field only if it is absent and
      replies with the number of fields set. */
  function Hsetnx(s: Store, k: Key, f: i64, v: Bytes): (r: Reply)
    ensures r.count == 1 <==> !HasField(s, k, f)
    ensures r.count == 0 <==> HasField(s, k, f)
    ensures OnlyAddsField(s, r.store, k, f)
    ensures HasField(r.store, k, f)
    ensures r.count == 1 ==> r.store[k][f] == v
    ensures r.count == 0 ==> r.store == s
  {
    if HasField(s, k, f) then Reply(s, 0)
    else
      var h := if k in s then s[k] else map[];
      Reply(s[k := h[f := v]], 1)
  }

  /** DEL key: removes the key with all its fields and replies with the
      number of keys removed. */
  function Del(s: Store, k: Key): (r: Reply)
    ensures r.count == 1 <==> k in s
    ensures r.count == 0 <==> k !in s
    ensures r.store.Keys == s.Keys - {k}
    ensures forall k' :: k' in r.store ==> r.store[k'] == s[k']
  {
    Reply(s - {k}, if k in s then 1 else 0)
  }

  /** KEYS prefix*: every key that starts with the prefix. */
  function Keys(s: Store, prefix: Bytes): (r: set<Key>)
    ensures forall k :: k in r <==> k in s && StartsWith(k, prefix)
  {
    set k | k in s && StartsWith(k, prefix)
  }

  /** The current content of a key: `read` chooses which field of an
      existing hash is current; a key that does not exist has none. */
  function GetKeyValue(s: Store, k: Key, read: Hash -> Option<Bytes>): (r: Option<Bytes>)
    ensures k !in s ==> r == None
    ensures k in s ==> r == read(s[k])
  {
    if k in s then read(s[k]) else None
  }
}
