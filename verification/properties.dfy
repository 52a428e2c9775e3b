/** Properties that relate several repository calls: the set-if-absent
    conflict that gives optimistic concurrency, idempotent delete,
    append-only version history, version advance over repeated updates,
    and the exact shape of the recovery-sweep filter. */
module RepositoryProperties {
  import opened Basics
  import opened Transactions
  import opened HashStore
  import opened RedisRepository

  /** No call of the operation's own can throw. */
  predicate Healthy(repo: Repo, xid: Xid, down: set<FaultPoint>) {
    && Borrow !in down
    && Write(KeyOf(repo, xid)) !in down
    && Remove(KeyOf(repo, xid)) !in down
    && Read(KeyOf(repo, xid)) !in down
  }

  // ---------------------------------------------------------------------
  // Optimistic concurrency: one winner per (key, version)

  /** Two creates of the same (key, version): once the first has written
      the field, the second returns 0, leaves the store as it is, and the
      stored bytes stay the first writer's. */
  lemma CreateTwiceConflicts(repo: Repo, s: Store, tx1: Transaction, tx2: Transaction,
                             down1: set<FaultPoint>, down2: set<FaultPoint>)
    requires KeyOf(repo, tx1.xid) == KeyOf(repo, tx2.xid) && tx1.version == tx2.version
    requires DoCreate(repo, s, tx1, down1).count == Ok(1)
    requires Healthy(repo, tx2.xid, down2)
    ensures var s1 := DoCreate(repo, s, tx1, down1).store;
            var second := DoCreate(repo, s1, tx2, down2);
            && second.count == Ok(0)
            && second.store == s1
            && HasField(s1, KeyOf(repo, tx1.xid), tx1.version)
            && s1[KeyOf(repo, tx1.xid)][tx1.version] == repo.serialize(tx1)
  {
  }

  /** Two coordinators race to update their own copies of one
      transaction, both read at the same prior version but possibly with
      different changes made since. The first to reach the store writes
      the next version; the second gets 0 and its write changes nothing,
      so the stored bytes are the first writer's; and yet the loser's copy
      has been bumped to that same version. */
  lemma UpdateRaceHasOneWinner(repo: Repo, s: Store, tx1: Transaction, tx2: Transaction, now1: int, now2: int,
                               down1: set<FaultPoint>, down2: set<FaultPoint>)
    requires KeyOf(repo, tx1.xid) == KeyOf(repo, tx2.xid) && tx1.version == tx2.version
    requires DoUpdate(repo, s, tx1, now1, down1).count == Ok(1)
    requires Healthy(repo, tx2.xid, down2)
    ensures var first := DoUpdate(repo, s, tx1, now1, down1);
            var second := DoUpdate(repo, first.store, tx2, now2, down2);
            && second.count == Ok(0)
            && second.store == first.store
            && second.tx.version == first.tx.version == NextVersion(tx1.version)
            && first.store[KeyOf(repo, tx1.xid)][first.tx.version] == repo.serialize(first.tx)
  {
  }

  // ---------------------------------------------------------------------
  // Delete and lookups

  /** Deleting twice: the second delete returns 0 and changes nothing. */
  lemma DeleteTwiceIsNoop(repo: Repo, s: Store, tx: Transaction, down1: set<FaultPoint>, down2: set<FaultPoint>)
    requires DoDelete(repo, s, tx, down1).count.Ok?
    requires Healthy(repo, tx.xid, down2)
    ensures var s1 := DoDelete(repo, s, tx, down1).store;
            var again := DoDelete(repo, s1, tx, down2);
            again.count == Ok(0) && again.store == s1
  {
  }

  /** After a delete, FindOne reports "not found", whichever field the
      store would have treated as current. */
  lemma DeleteThenFindOneIsNone(repo: Repo, s: Store, tx: Transaction, down1: set<FaultPoint>, down2: set<FaultPoint>)
    requires DoDelete(repo, s, tx, down1).count.Ok?
    requires Healthy(repo, tx.xid, down2)
    ensures DoFindOne(repo, DoDelete(repo, s, tx, down1).store, tx.xid, down2) == Ok(None)
  {
  }

  /** A record created under a fresh key is what FindOne gives back,
      provided the current-field read returns the only field of a
      one-field hash. */
  lemma CreateThenFindOne(repo: Repo, s: Store, tx: Transaction, down: set<FaultPoint>)
    requires KeyOf(repo, tx.xid) !in s
    requires Healthy(repo, tx.xid, down)
    requires repo.currentField(map[tx.version := repo.serialize(tx)]) == Some(repo.serialize(tx))
    ensures var created := DoCreate(repo, s, tx, down);
            && created.count == Ok(1)
            && DoFindOne(repo, created.store, tx.xid, down) == Ok(Some(repo.deserialize(repo.serialize(tx))))
  {
  }

  // ---------------------------------------------------------------------
  // The full scan

  /** The positions of `order`, in increasing order, whose key has
      current content. */
  function ContentPositions(repo: Repo, s: Store, order: seq<Key>): (pos: seq<int>)
    decreases |order|
  {
    if |order| == 0 then []
    else
      var n := |order| - 1;
      ContentPositions(repo, s, order[..n]) + (if GetKeyValue(s, order[n], repo.currentField).Some? then [n] else [])
  }

  /** `r` lists, one for one, the deserialized contents of the keys of
      `order` at the increasing positions `pos`. */
  ghost predicate ReadsAt(repo: Repo, s: Store, order: seq<Key>, r: seq<Transaction>, pos: seq<int>) {
    && |pos| == |r|
    && (forall i :: 0 <= i < |pos| ==>
          && 0 <= pos[i] < |order|
          && GetKeyValue(s, order[pos[i]], repo.currentField).Some?
          && r[i] == repo.deserialize(GetKeyValue(s, order[pos[i]], repo.currentField).value))
    && (forall i, j :: 0 <= i < j < |pos| ==> pos[i] < pos[j])
  }

  /** The positions listed in `pos` are exactly those whose key has
      current content. */
  ghost predicate PicksContent(repo: Repo, s: Store, order: seq<Key>, pos: seq<int>) {
    forall p :: 0 <= p < |order| ==> (p in pos <==> GetKeyValue(s, order[p], repo.currentField).Some?)
  }

  /** Visiting one more key extends the scan by that key's record, if it
      has content, and by nothing otherwise. */
  lemma CollectSnoc(repo: Repo, s: Store, init: seq<Key>, k: Key)
    ensures Collect(repo, s, init + [k]) ==
      Collect(repo, s, init) +
      (if GetKeyValue(s, k, repo.currentField).Some? then [repo.deserialize(GetKeyValue(s, k, repo.currentField).value)] else [])
    ensures ContentPositions(repo, s, init + [k]) ==
      ContentPositions(repo, s, init) + (if GetKeyValue(s, k, repo.currentField).Some? then [|init|] else [])
  {
    assert (init + [k])[..|init|] == init;
  }

  lemma ReadsAtExtend(repo: Repo, s: Store, init: seq<Key>, k: Key, r0: seq<Transaction>, pos0: seq<int>)
    requires ReadsAt(repo, s, init, r0, pos0)
    ensures GetKeyValue(s, k, repo.currentField).Some? ==>
      ReadsAt(repo, s, init + [k], r0 + [repo.deserialize(GetKeyValue(s, k, repo.currentField).value)], pos0 + [|init|])
    ensures ReadsAt(repo, s, init + [k], r0, pos0)
  {
    var order := init + [k];
    forall i | 0 <= i < |pos0|
      ensures order[pos0[i]] == init[pos0[i]]
    {
    }
  }

  lemma PicksContentExtend(repo: Repo, s: Store, init: seq<Key>, k: Key, r0: seq<Transaction>, pos0: seq<int>)
    requires ReadsAt(repo, s, init, r0, pos0)
    requires PicksContent(repo, s, init, pos0)
    ensures PicksContent(repo, s, init + [k],
      pos0 + (if GetKeyValue(s, k, repo.currentField).Some? then [|init|] else []))
  {
    var order := init + [k];
    var n := |init|;
    var pos := pos0 + (if GetKeyValue(s, k, repo.currentField).Some? then [n] else []);
    assert n !in pos0 by {
      forall i | 0 <= i < |pos0|
        ensures pos0[i] != n
      {
        assert pos0[i] < |init|;
      }
    }
    forall p | 0 <= p < |order|
      ensures p in pos <==> GetKeyValue(s, order[p], repo.currentField).Some?
    {
      if p < n {
        assert order[p] == init[p];
        assert p in pos <==> p in pos0;
      } else {
        assert p == n;
      }
    }
  }

  /** The scan returns exactly one record per visited key that has
      current content, in visiting order, and nothing for the keys
      without content. */
  lemma {:induction false} CollectSelectsInOrder(repo: Repo, s: Store, order: seq<Key>)
    ensures ReadsAt(repo, s, order, Collect(repo, s, order), ContentPositions(repo, s, order))
    ensures PicksContent(repo, s, order, ContentPositions(repo, s, order))
    decreases |order|
  {
    if |order| > 0 {
      var n := |order| - 1;
      var init := order[..n];
      var k := order[n];
      assert order == init + [k];
      CollectSelectsInOrder(repo, s, init);
      CollectSnoc(repo, s, init, k);
      ReadsAtExtend(repo, s, init, k, Collect(repo, s, init), ContentPositions(repo, s, init));
      PicksContentExtend(repo, s, init, k, Collect(repo, s, init), ContentPositions(repo, s, init));
    }
  }

  /** A record created under a fresh key that lies under the prefix is
      among the records FindAll returns, whatever order the scan visits
      the keys in. */
  lemma CreatedRecordIsScanned(repo: Repo, s: Store, tx: Transaction, down: set<FaultPoint>, order: seq<Key>)
    requires KeyOf(repo, tx.xid) !in s
    requires StartsWith(KeyOf(repo, tx.xid), repo.keyPrefix)
    requires Healthy(repo, tx.xid, down)
    requires repo.currentField(map[tx.version := repo.serialize(tx)]) == Some(repo.serialize(tx))
    requires Enumerates(order, Keys(DoCreate(repo, s, tx, down).store, repo.keyPrefix))
    ensures repo.deserialize(repo.serialize(tx)) in Collect(repo, DoCreate(repo, s, tx, down).store, order)
  {
  }

  /** Create, look up, update, delete, look up again: the create wins,
      the lookup sees it, the update advances the caller's record by one
      version and stores it there, and after the delete nothing is
      found. */
  lemma CreateUpdateDeleteScenario(repo: Repo, s: Store, tx: Transaction, now: int, down: set<FaultPoint>)
    requires KeyOf(repo, tx.xid) !in s
    requires Healthy(repo, tx.xid, down)
    requires tx.version as int < I64_MAX
    requires repo.currentField(map[tx.version := repo.serialize(tx)]) == Some(repo.serialize(tx))
    ensures var created := DoCreate(repo, s, tx, down);
            var updated := DoUpdate(repo, created.store, tx, now, down);
            var deleted := DoDelete(repo, updated.store, updated.tx, down);
            && created.count == Ok(1)
            && DoFindOne(repo, created.store, tx.xid, down) == Ok(Some(repo.deserialize(repo.serialize(tx))))
            && updated.count == Ok(1)
            && updated.tx.version as int == tx.version as int + 1
            && HasField(updated.store, KeyOf(repo, tx.xid), updated.tx.version)
            && deleted.count == Ok(1)
            && DoFindOne(repo, deleted.store, tx.xid, down) == Ok(None)
  {
  }

  // ---------------------------------------------------------------------
  // Sequences of writes

  /** One repository write, with the fault points of that call. */
  datatype Op =
    | CreateOp(tx: Transaction, down: set<FaultPoint>)
    | UpdateOp(tx: Transaction, now: int, down: set<FaultPoint>)
    | DeleteOp(tx: Transaction, down: set<FaultPoint>)

  function Apply(repo: Repo, s: Store, op: Op): (s': Store) {
    match op
    case CreateOp(tx, down) => DoCreate(repo, s, tx, down).store
    case UpdateOp(tx, now, down) => DoUpdate(repo, s, tx, now, down).store
    case DeleteOp(tx, down) => DoDelete(repo, s, tx, down).store
  }

  /** The store after the writes of `ops`, one after another. */
  function Run(repo: Repo, s: Store, ops: seq<Op>): (s': Store)
    decreases |ops|
  {
    if |ops| == 0 then s else Run(repo, Apply(repo, s, ops[0]), ops[1..])
  }

  predicate DeletesKey(repo: Repo, op: Op, k: Key) {
    op.DeleteOp? && KeyOf(repo, op.tx.xid) == k
  }

  /** Every write leaves no key holding an empty hash. */
  lemma ApplyKeepsWellFormed(repo: Repo, s: Store, op: Op)
    requires WellFormed(s)
    ensures WellFormed(Apply(repo, s, op))
  {
    var s' := Apply(repo, s, op);
    match op
    case CreateOp(tx, down) =>
      assert OnlyAddsField(s, s', KeyOf(repo, tx.xid), tx.version);
    case UpdateOp(tx, now, down) =>
      assert OnlyAddsField(s, s', KeyOf(repo, tx.xid), NextVersion(tx.version));
    case DeleteOp(tx, down) =>
  }

  /** Any sequence of writes keeps the store well formed. */
  lemma {:induction false} RunKeepsWellFormed(repo: Repo, s: Store, ops: seq<Op>)
    requires WellFormed(s)
    ensures WellFormed(Run(repo, s, ops))
    decreases |ops|
  {
    if |ops| > 0 {
      ApplyKeepsWellFormed(repo, s, ops[0]);
      RunKeepsWellFormed(repo, Apply(repo, s, ops[0]), ops[1..]);
    }
  }

  /** A write that does not delete key `k` keeps every field of `k`. */
  lemma ApplyKeepsKey(repo: Repo, s: Store, op: Op, k: Key)
    requires !DeletesKey(repo, op, k)
    requires k in s
    ensures k in Apply(repo, s, op)
    ensures forall f :: f in s[k] ==> f in Apply(repo, s, op)[k] && Apply(repo, s, op)[k][f] == s[k][f]
  {
  }

  /** Versions are append-only: unless some write deletes the key, every
      version field it held keeps its bytes through any sequence of
      creates, updates and deletes of other keys. */
  lemma {:induction false} RunNeverOverwrites(repo: Repo, s: Store, ops: seq<Op>, k: Key)
    requires forall i :: 0 <= i < |ops| ==> !DeletesKey(repo, ops[i], k)
    requires k in s
    ensures k in Run(repo, s, ops)
    ensures forall f :: f in s[k] ==> f in Run(repo, s, ops)[k] && Run(repo, s, ops)[k][f] == s[k][f]
    decreases |ops|
  {
    if |ops| > 0 {
      ApplyKeepsKey(repo, s, ops[0], k);
      var s1 := Apply(repo, s, ops[0]);
      assert forall i :: 0 <= i < |ops[1..]| ==> ops[1..][i] == ops[i + 1];
      RunNeverOverwrites(repo, s1, ops[1..], k);
    }
  }

  /** What repeated updates of one record leave behind: the store, the
      caller's record, and the count each update returned. */
  datatype Trail = Trail(store: Store, tx: Transaction, counts: seq<Result<int, Error>>)

  /** Update the record once per time in `nows`, each update starting
      from the record the previous one returned, with no faults. */
  function UpdateMany(repo: Repo, s: Store, tx: Transaction, nows: seq<int>): (t: Trail)
    decreases |nows|
  {
    if |nows| == 0 then Trail(s, tx, [])
    else
      var o := DoUpdate(repo, s, tx, nows[0], {});
      var rest := UpdateMany(repo, o.store, o.tx, nows[1..]);
      Trail(rest.store, rest.tx, [o.count] + rest.counts)
  }

  /** One fault-free update into a version nobody has written returns 1,
      and the versions above it up to `top` stay unwritten. */
  lemma FreshUpdateSucceeds(repo: Repo, s: Store, tx: Transaction, now: int, top: int)
    requires tx.version as int < top <= I64_MAX
    requires forall v: i64 :: tx.version as int < v as int <= top ==> !HasField(s, KeyOf(repo, tx.xid), v)
    ensures var o := DoUpdate(repo, s, tx, now, {});
            && o.count == Ok(1)
            && o.tx.version as int == tx.version as int + 1
            && forall v: i64 :: o.tx.version as int < v as int <= top ==> !HasField(o.store, KeyOf(repo, tx.xid), v)
  {
    var key := KeyOf(repo, tx.xid);
    var o := DoUpdate(repo, s, tx, now, {});
    assert !HasField(s, key, NextVersion(tx.version));
    forall v: i64 | o.tx.version as int < v as int <= top
      ensures !HasField(o.store, key, v)
    {
      assert !HasField(s, key, v);
    }
  }

  /** After N updates into versions nobody has written yet, each update
      returns 1, the record's version is its starting version plus N, its
      time is the last `now`, and the store holds it under that version. */
  lemma {:induction false} UpdatesAdvanceVersion(repo: Repo, s: Store, tx: Transaction, nows: seq<int>)
    requires tx.version as int + |nows| <= I64_MAX
    requires forall v: i64 :: tx.version as int < v as int <= tx.version as int + |nows| ==>
      !HasField(s, KeyOf(repo, tx.xid), v)
    ensures var t := UpdateMany(repo, s, tx, nows);
            && t.tx.version as int == tx.version as int + |nows|
            && t.tx.xid == tx.xid
            && t.tx.payload == tx.payload
            && |t.counts| == |nows|
            && (forall i :: 0 <= i < |t.counts| ==> t.counts[i] == Ok(1))
            && (|nows| > 0 ==>
                  && t.tx.lastUpdateTime == nows[|nows| - 1]
                  && HasField(t.store, KeyOf(repo, tx.xid), t.tx.version)
                  && t.store[KeyOf(repo, tx.xid)][t.tx.version] == repo.serialize(t.tx))
    decreases |nows|
  {
    if |nows| > 0 {
      var o := DoUpdate(repo, s, tx, nows[0], {});
      FreshUpdateSucceeds(repo, s, tx, nows[0], tx.version as int + |nows|);
      UpdatesAdvanceVersion(repo, o.store, o.tx, nows[1..]);
      var rest := UpdateMany(repo, o.store, o.tx, nows[1..]);
      assert UpdateMany(repo, s, tx, nows).counts == [o.count] + rest.counts;
      if |nows| > 1 {
        assert nows[1..][|nows[1..]| - 1] == nows[|nows| - 1];
      }
    }
  }

  // ---------------------------------------------------------------------
  // The recovery-sweep filter

  /** `idx` lists positions of `txs`, in increasing order, whose records
      make up `r`. */
  ghost predicate Embeds(txs: seq<Transaction>, r: seq<Transaction>, idx: seq<int>) {
    && |idx| == |r|
    && (forall i :: 0 <= i < |idx| ==> 0 <= idx[i] < |txs| && r[i] == txs[idx[i]])
    && (forall i, j :: 0 <= i < j < |idx| ==> idx[i] < idx[j])
  }

  /** The positions listed in `idx` are exactly those last updated before
      `date`. */
  ghost predicate PicksUnmodified(txs: seq<Transaction>, idx: seq<int>, date: int) {
    forall p :: 0 <= p < |txs| ==> (p in idx <==> txs[p].lastUpdateTime < date)
  }

  /** Appending one record extends an embedding, whether or not the
      record is selected. */
  lemma EmbedsExtend(init: seq<Transaction>, x: Transaction, r0: seq<Transaction>, idx0: seq<int>)
    requires Embeds(init, r0, idx0)
    ensures Embeds(init + [x], r0 + [x], idx0 + [|init|])
    ensures Embeds(init + [x], r0, idx0)
  {
  }

  /** Appending one record keeps the selected positions exact, with the
      new position selected iff its record is old enough. */
  lemma PicksExtend(init: seq<Transaction>, x: Transaction, r0: seq<Transaction>, idx0: seq<int>, date: int)
    requires Embeds(init, r0, idx0)
    requires PicksUnmodified(init, idx0, date)
    ensures x.lastUpdateTime < date ==> PicksUnmodified(init + [x], idx0 + [|init|], date)
    ensures x.lastUpdateTime >= date ==> PicksUnmodified(init + [x], idx0, date)
  {
  }

  /** The positions of `txs`, in increasing order, whose record was last
      updated strictly before `date`. */
  function SelectedPositions(txs: seq<Transaction>, date: int): (idx: seq<int>)
    decreases |txs|
  {
    if |txs| == 0 then []
    else
      var n := |txs| - 1;
      SelectedPositions(txs[..n], date) + (if txs[n].lastUpdateTime < date then [n] else [])
  }

  /** The sweep is the order-preserving selection of exactly the records
      last updated strictly before `date`: it lists the records at
      `SelectedPositions`, and those are all such positions and no
      others. */
  lemma {:induction false} UnmodifiedSinceSelectsInOrder(txs: seq<Transaction>, date: int)
    ensures Embeds(txs, UnmodifiedSince(txs, date), SelectedPositions(txs, date))
    ensures PicksUnmodified(txs, SelectedPositions(txs, date), date)
    decreases |txs|
  {
    if |txs| > 0 {
      var n := |txs| - 1;
      var init := txs[..n];
      assert txs == init + [txs[n]];
      UnmodifiedSinceSelectsInOrder(init, date);
      var idx0 := SelectedPositions(init, date);
      var r0 := UnmodifiedSince(init, date);
      EmbedsExtend(init, txs[n], r0, idx0);
      PicksExtend(init, txs[n], r0, idx0, date);
      if txs[n].lastUpdateTime < date {
        assert SelectedPositions(txs, date) == idx0 + [n];
        assert UnmodifiedSince(txs, date) == r0 + [txs[n]];
      } else {
        assert SelectedPositions(txs, date) == idx0;
        assert UnmodifiedSince(txs, date) == r0;
      }
    }
  }

  /** Appending one record to the input appends it to the sweep iff it
      was last updated before `date`. */
  lemma UnmodifiedSinceSnoc(a: seq<Transaction>, x: Transaction, date: int)
    ensures UnmodifiedSince(a + [x], date) == UnmodifiedSince(a, date) + (if x.lastUpdateTime < date then [x] else [])
  {
    assert (a + [x])[..|a|] == a;
  }

  /** A record is in the sweep iff it is in the input and was last
      updated strictly before `date`: a time equal to `date` is left
      out. */
  lemma {:induction false} UnmodifiedSinceMembers(txs: seq<Transaction>, date: int)
    ensures forall t :: t in UnmodifiedSince(txs, date) <==> t in txs && t.lastUpdateTime < date
    decreases |txs|
  {
    if |txs| > 0 {
      var n := |txs| - 1;
      var init := txs[..n];
      assert txs == init + [txs[n]];
      UnmodifiedSinceMembers(init, date);
      UnmodifiedSinceSnoc(init, txs[n], date);
    }
  }

  /** Filtering distributes over concatenation: the sweep of a split list
      is the sweep of each part, in order. */
  lemma {:induction false} UnmodifiedSinceConcat(a: seq<Transaction>, b: seq<Transaction>, date: int)
    ensures UnmodifiedSince(a + b, date) == UnmodifiedSince(a, date) + UnmodifiedSince(b, date)
    decreases |b|
  {
    if |b| == 0 {
      assert a + b == a;
    } else {
      var n := |b| - 1;
      var x := b[n];
      var tail := if x.lastUpdateTime < date then [x] else [];
      assert b == b[..n] + [x];
      assert a + b == (a + b[..n]) + [x];
      UnmodifiedSinceSnoc(a + b[..n], x, date);
      UnmodifiedSinceConcat(a, b[..n], date);
      UnmodifiedSinceSnoc(b[..n], x, date);
      calc {
        UnmodifiedSince(a + b, date);
        UnmodifiedSince(a + b[..n], date) + tail;
        (UnmodifiedSince(a, date) + UnmodifiedSince(b[..n], date)) + tail;
        UnmodifiedSince(a, date) + (UnmodifiedSince(b[..n], date) + tail);
        UnmodifiedSince(a, date) + UnmodifiedSince(b, date);
      }
    }
  }

  /** Sweeping with an earlier threshold after a later one is the same as
      sweeping with the earlier threshold alone; with equal thresholds the
      sweep is idempotent. */
  lemma {:induction false} UnmodifiedSinceNarrows(txs: seq<Transaction>, early: int, late: int)
    requires early <= late
    ensures UnmodifiedSince(UnmodifiedSince(txs, late), early) == UnmodifiedSince(txs, early)
    decreases |txs|
  {
    if |txs| > 0 {
      var n := |txs| - 1;
      var init := txs[..n];
      UnmodifiedSinceNarrows(init, early, late);
      var last := if txs[n].lastUpdateTime < late then [txs[n]] else [];
      assert UnmodifiedSince(txs, late) == UnmodifiedSince(init, late) + last;
      UnmodifiedSinceConcat(UnmodifiedSince(init, late), last, early);
      if txs[n].lastUpdateTime < late {
        assert UnmodifiedSince(last, early) == UnmodifiedSince([], early) + (if txs[n].lastUpdateTime < early then [txs[n]] else []);
      }
    }
  }
}
