/**
 * Per-database storage: the data map, its index of deadlines, an incremental
 * memory counter, and the WATCH reference and version tables.
 */
module Keyspace {
  import opened Base
  import opened Values

  type Key = Bytes

  datatype Shard = Shard(
    data: map<Key, Stored>,
    expires: map<Key, int>,
    keyVersions: map<Key, nat>,
    watchRefs: map<Key, nat>)

  datatype Store = Store(shards: seq<Shard>, memory: seq<nat>, nextVersion: nat, watchedKeys: nat)

  const EMPTY_SHARD: Shard := Shard(map[], map[], map[], map[])

  // ---- the storage invariant ------------------------------------------------

  /** The deadlines a data map holds: exactly its keys with a positive deadline field. */
  ghost function Deadlines(data: map<Key, Stored>): map<Key, int> {
    map k | k in data && data[k].expireAt > 0 :: data[k].expireAt
  }

  /** Sum of the memory estimates of all objects. */
  ghost function Footprint(data: map<Key, Stored>): nat {
    if data == map[] then 0
    else
      var k :| k in data;
      Estimate(k, data[k]) + Footprint(data - {k})
  }

  lemma {:induction false} FootprintRemove(data: map<Key, Stored>, key: Key)
    requires key in data
    ensures Footprint(data) == Estimate(key, data[key]) + Footprint(data - {key})
    decreases |data|
  {
    hide Estimate;
    var k :| k in data && Footprint(data) == Estimate(k, data[k]) + Footprint(data - {k});
    if k != key {
      FootprintRemove(data - {k}, key);
      FootprintRemove(data - {key}, k);
      assert data - {k} - {key} == data - {key} - {k};
    }
  }

  lemma FootprintInsert(data: map<Key, Stored>, key: Key, value: Stored)
    ensures Footprint(data[key := value]) == Estimate(key, value) + Footprint(data - {key})
  {
    hide Estimate;
    FootprintRemove(data[key := value], key);
    assert data[key := value] - {key} == data - {key};
  }

  lemma FootprintAbsent(data: map<Key, Stored>, key: Key)
    requires key !in data
    ensures data - {key} == data
  {
  }

  ghost predicate ShardOk(sh: Shard, memory: nat, nextVersion: nat) {
    && sh.expires == Deadlines(sh.data)
    && memory == Footprint(sh.data)
    && WatchOk(sh, nextVersion)
  }

  /** Versions exist only for watched keys and are all older than the next one. */
  ghost predicate WatchOk(sh: Shard, nextVersion: nat) {
    && (forall k :: k in sh.watchRefs ==> sh.watchRefs[k] >= 1)
    && (forall k :: k in sh.keyVersions ==> k in sh.watchRefs && sh.keyVersions[k] < nextVersion)
  }

  ghost function WatchedTotal(shards: seq<Shard>): nat {
    if shards == [] then 0 else |shards[0].watchRefs| + WatchedTotal(shards[1..])
  }

  ghost predicate Ok(s: Store) {
    && |s.memory| == |s.shards| && s.nextVersion >= 1
    && (forall i :: 0 <= i < |s.shards| ==> ShardOk(s.shards[i], s.memory[i], s.nextVersion))
    && s.watchedKeys == WatchedTotal(s.shards)
  }

  lemma {:induction false} WatchedTotalUpdate(shards: seq<Shard>, i: nat, sh: Shard)
    requires i < |shards|
    ensures WatchedTotal(shards[i := sh]) == WatchedTotal(shards) - |shards[i].watchRefs| + |sh.watchRefs|
    ensures |shards[i].watchRefs| <= WatchedTotal(shards)
  {
    if i > 0 {
      WatchedTotalUpdate(shards[1..], i - 1, sh);
      assert shards[i := sh][1..] == shards[1..][i - 1 := sh];
    }
  }

  // ---- what WATCH can see ---------------------------------------------------

  /** A registration, its release, or a write that records modifications of some keys. */
  datatype Event =
    | Watch(db: nat, key: Key)
    | Unwatch(db: nat, key: Key)
    | Write(recorded: set<(nat, Key)>)

  ghost predicate SameTables(a: Shard, b: Shard) {
    a.watchRefs == b.watchRefs && a.keyVersions == b.keyVersions
  }

  /** A watched recorded key gets a version newer than all before; every other key keeps its version. */
  ghost predicate RecordsIn(a: Shard, next: nat, db: nat, recorded: set<(nat, Key)>, b: Shard, next': nat) {
    && b.watchRefs == a.watchRefs
    && (forall k :: k in a.watchRefs && (db, k) in recorded ==> k in b.keyVersions && next <= b.keyVersions[k] < next')
    && (forall k :: !(k in a.watchRefs && (db, k) in recorded) ==>
          ((k in b.keyVersions <==> k in a.keyVersions)
          && (k in a.keyVersions ==> b.keyVersions[k] == a.keyVersions[k])))
  }

  ghost function ReleaseRef(sh: Shard, key: Key): Shard {
    if key !in sh.watchRefs then sh
    else if sh.watchRefs[key] > 1 then sh.(watchRefs := sh.watchRefs[key := sh.watchRefs[key] - 1])
    else sh.(watchRefs := sh.watchRefs - {key}, keyVersions := sh.keyVersions - {key})
  }

  ghost function AddRef(sh: Shard, key: Key): Shard {
    sh.(watchRefs := sh.watchRefs[key := (if key in sh.watchRefs then sh.watchRefs[key] else 0) + 1])
  }

  /** What one event does to the WATCH tables. */
  ghost predicate WatchStep(s: Store, e: Event, t: Store) {
    && |t.shards| == |s.shards|
    && match e
       case Watch(db, key) =>
         && db < |s.shards| && t.nextVersion == s.nextVersion
         && (forall i :: 0 <= i < |s.shards| ==>
               SameTables(t.shards[i], if i == db then AddRef(s.shards[i], key) else s.shards[i]))
       case Unwatch(db, key) =>
         && db < |s.shards| && t.nextVersion == s.nextVersion
         && (forall i :: 0 <= i < |s.shards| ==>
               SameTables(t.shards[i], if i == db then ReleaseRef(s.shards[i], key) else s.shards[i]))
       case Write(recorded) =>
         && s.nextVersion <= t.nextVersion
         && (forall i :: 0 <= i < |s.shards| ==>
               RecordsIn(s.shards[i], s.nextVersion, i, recorded, t.shards[i], t.nextVersion))
  }

  /** Every watched key that maps to something else than before is among the recorded ones. */
  ghost predicate ChangesRecorded(s: Store, recorded: set<(nat, Key)>, t: Store) {
    |t.shards| == |s.shards|
    && forall i, k :: 0 <= i < |s.shards| && k in s.shards[i].watchRefs && (i, k) !in recorded ==>
         (k in s.shards[i].data <==> k in t.shards[i].data)
         && (k in s.shards[i].data ==> s.shards[i].data[k] == t.shards[i].data[k])
  }

  /** Only database `db` changed, and there only the data, its index and its counter. */
  ghost predicate OnlyData(s: Store, db: nat, t: Store) {
    && |t.shards| == |s.shards| && |t.memory| == |s.memory| && db < |s.shards|
    && t.nextVersion == s.nextVersion && t.watchedKeys == s.watchedKeys
    && SameTables(s.shards[db], t.shards[db])
    && (forall i :: 0 <= i < |s.shards| && i != db ==> t.shards[i] == s.shards[i])
    && (forall i :: 0 <= i < |s.memory| && i != db ==> t.memory[i] == s.memory[i])
  }

  lemma OnlyDataIsSilent(s: Store, db: nat, t: Store)
    requires OnlyData(s, db, t)
    ensures WatchStep(s, Write({}), t)
  {
  }

  /** Replacing one database's data keeps the invariant when index and counter follow. */
  lemma DataUpdateOk(s: Store, db: nat, sh: Shard, mem: nat, t: Store)
    requires Ok(s) && db < |s.shards|
    requires SameTables(s.shards[db], sh) && sh.expires == Deadlines(sh.data) && mem == Footprint(sh.data)
    requires t == Store(s.shards[db := sh], s.memory[db := mem], s.nextVersion, s.watchedKeys)
    ensures Ok(t) && OnlyData(s, db, t)
  {
    hide Deadlines, Footprint;
    WatchedTotalUpdate(s.shards, db, sh);
  }

  /** Replacing one database's WATCH tables keeps the invariant when the total follows. */
  lemma TablesUpdateOk(s: Store, db: nat, sh: Shard, t: Store)
    requires Ok(s) && db < |s.shards|
    requires sh.data == s.shards[db].data && sh.expires == s.shards[db].expires
    requires s.nextVersion <= t.nextVersion && WatchOk(sh, t.nextVersion)
    requires t.shards == s.shards[db := sh] && t.memory == s.memory
    requires t.watchedKeys == s.watchedKeys - |s.shards[db].watchRefs| + |sh.watchRefs|
    ensures Ok(t)
  {
    hide Deadlines, Footprint;
    WatchedTotalUpdate(s.shards, db, sh);
    forall i | 0 <= i < |t.shards| ensures ShardOk(t.shards[i], t.memory[i], t.nextVersion) {
      assert ShardOk(s.shards[i], s.memory[i], s.nextVersion);
    }
  }

  lemma OkShard(s: Store, db: nat)
    requires Ok(s) && db < |s.shards|
    ensures |s.memory| == |s.shards| && ShardOk(s.shards[db], s.memory[db], s.nextVersion)
    ensures |s.shards[db].watchRefs| <= s.watchedKeys
  {
    hide ShardOk;
    WatchedTotalUpdate(s.shards, db, s.shards[db]);
  }

  /** The deadline index after setting or clearing a key's deadline. */
  function SyncExpires(expires: map<Key, int>, key: Key, at: Option<int>): map<Key, int> {
    if at.Some? && at.value > 0 then expires[key := at.value] else expires - {key}
  }

  lemma SyncExpiresExact(data: map<Key, Stored>, key: Key, value: Stored)
    ensures SyncExpires(Deadlines(data), key, value.Deadline()) == Deadlines(data[key := value])
    ensures Deadlines(data) - {key} == Deadlines(data - {key})
  {
  }

  /** What renaming does to the sum and to the deadlines, overwritten target included. */
  lemma RenameFacts(data: map<Key, Stored>, source: Key, target: Key)
    requires source in data
    ensures var value, rest := data[source], data - {source};
      var freed := if target in rest then Estimate(target, rest[target]) else 0;
      && Footprint(data) >= Estimate(source, value) + freed
      && Footprint(rest[target := value]) == Footprint(data) - freed - Estimate(source, value) + Estimate(target, value)
      && SyncExpires(Deadlines(data) - {source} - {target}, target, value.Deadline())
         == Deadlines(rest[target := value])
  {
    hide Estimate, Deadlines, Footprint;
    var value, rest := data[source], data - {source};
    FootprintRemove(data, source);
    if target in rest { FootprintRemove(rest, target); } else { FootprintAbsent(rest, target); }
    FootprintInsert(rest, target, value);
    SyncExpiresExact(data, source, value);
    SyncExpiresExact(rest, target, value);
    SyncTwice(Deadlines(rest), target, value.Deadline());
  }

  lemma SyncTwice(expires: map<Key, int>, key: Key, at: Option<int>)
    ensures SyncExpires(expires - {key}, key, at) == SyncExpires(expires, key, at)
  {
  }
}
