/**
 * The database layer: every tracked operation keeps the deadline index and the
 * memory counter exact, and every operation that replaces data behind a
 * client's back records the watched keys it changes.
 */
module DataState {
  import opened Base
  import opened Decimal
  import opened Values
  import opened Keyspace

  /** The watched keys of a database that some contents hold. */
  ghost function Marks(db: nat, refs: map<Key, nat>, data: map<Key, Stored>): set<(nat, Key)> {
    set k | k in refs && k in data :: (db, k)
  }

  /** Some keys of one database. */
  ghost function KeysOf(db: nat, keys: set<Key>): set<(nat, Key)> {
    set k | k in keys :: (db, k)
  }

  /** Same contents; only WATCH tables may differ. */
  ghost predicate SameData(s: Store, t: Store) {
    && |t.shards| == |s.shards| && t.memory == s.memory && t.watchedKeys == s.watchedKeys
    && forall i :: 0 <= i < |s.shards| ==>
      t.shards[i].data == s.shards[i].data && t.shards[i].expires == s.shards[i].expires
  }

  /** Every other database keeps its contents and its counter. */
  ghost predicate Elsewhere(s: Store, db: nat, t: Store) {
    && |t.shards| == |s.shards| && |s.memory| == |s.shards| && |t.memory| == |t.shards|
    && forall i :: 0 <= i < |s.shards| && i != db ==>
         t.shards[i].data == s.shards[i].data && t.memory[i] == s.memory[i]
  }

  lemma NoKeys(db: nat)
    ensures KeysOf(db, {}) == {}
  {
  }

  lemma SameElsewhere(s: Store, db: nat)
    requires |s.memory| == |s.shards|
    ensures Elsewhere(s, db, s)
  {
  }

  lemma ElsewhereTrans(s: Store, db: nat, t: Store, u: Store)
    requires Elsewhere(s, db, t) && Elsewhere(t, db, u)
    ensures Elsewhere(s, db, u)
  {
  }

  /** A write that records at least every watched key it changes. */
  ghost predicate Recorded(s: Store, recorded: set<(nat, Key)>, t: Store) {
    WatchStep(s, Write(recorded), t) && ChangesRecorded(s, recorded, t)
  }

  lemma WriteCompose(s: Store, a: set<(nat, Key)>, t: Store, b: set<(nat, Key)>, u: Store)
    requires WatchStep(s, Write(a), t) && WatchStep(t, Write(b), u)
    ensures WatchStep(s, Write(a + b), u)
    ensures forall i :: 0 <= i < |s.shards| ==> t.shards[i].watchRefs == s.shards[i].watchRefs
  {
    forall i | 0 <= i < |s.shards|
      ensures RecordsIn(s.shards[i], s.nextVersion, i, a + b, u.shards[i], u.nextVersion)
    {
      assert RecordsIn(s.shards[i], s.nextVersion, i, a, t.shards[i], t.nextVersion);
      assert RecordsIn(t.shards[i], t.nextVersion, i, b, u.shards[i], u.nextVersion);
    }
  }

  lemma RecordedCompose(s: Store, a: set<(nat, Key)>, t: Store, b: set<(nat, Key)>, u: Store)
    requires Recorded(s, a, t) && Recorded(t, b, u)
    ensures Recorded(s, a + b, u)
  {
    hide WatchStep;
    WriteCompose(s, a, t, b, u);
  }

  /** Contents replaced between two recordings: recorded when every changed watched key is among them. */
  lemma ReplacedBetween(s: Store, a: set<(nat, Key)>, t: Store, u: Store, b: set<(nat, Key)>, v: Store)
    requires WatchStep(s, Write(a), t) && SameData(s, t)
    requires |u.shards| == |t.shards| && u.nextVersion == t.nextVersion
    requires forall i :: 0 <= i < |t.shards| ==> SameTables(t.shards[i], u.shards[i])
    requires WatchStep(u, Write(b), v) && SameData(u, v)
    requires ChangesRecorded(s, a + b, u)
    ensures Recorded(s, a + b, v)
  {
    assert WatchStep(t, Write({}), u);
    WriteCompose(s, a, t, {}, u);
    assert a + {} == a;
    WriteCompose(s, a, u, b, v);
  }

  /** Recording one key: what the tables become and that the invariant survives. */
  ghost function Bumped(s: Store, db: nat, key: Key): Store
    requires db < |s.shards|
  {
    var sh := s.shards[db];
    if key !in sh.watchRefs then s
    else s.(shards := s.shards[db := sh.(keyVersions := sh.keyVersions[key := s.nextVersion])],
            nextVersion := s.nextVersion + 1)
  }

  lemma BumpedOk(s: Store, db: nat, key: Key)
    requires Ok(s) && db < |s.shards|
    ensures Ok(Bumped(s, db, key)) && SameData(s, Bumped(s, db, key))
    ensures Recorded(s, {(db, key)}, Bumped(s, db, key))
  {
    hide Footprint, Deadlines, Ok, WatchedTotal;
    var t := Bumped(s, db, key);
    OkShard(s, db);
    if key in s.shards[db].watchRefs {
      TablesUpdateOk(s, db, t.shards[db], t);
    }
  }

  class DataState {
    var shards: seq<Shard>
    var memory: seq<nat>
    var nextVersion: nat
    var watchedKeys: nat

    ghost function State(): Store
      reads this
    {
      Store(shards, memory, nextVersion, watchedKeys)
    }

    ghost predicate Valid()
      reads this
    {
      Ok(State())
    }

    constructor (dbCount: nat)
      ensures Valid() && shards == seq(dbCount, _ => EMPTY_SHARD)
    {
      shards := seq(dbCount, _ => EMPTY_SHARD);
      memory := seq(dbCount, _ => 0);
      nextVersion := 1;
      watchedKeys := 0;
      new;
      NoneWatched(dbCount);
    }

    static lemma {:induction false} NoneWatched(n: nat)
      ensures WatchedTotal(seq(n, _ => EMPTY_SHARD)) == 0
    {
      if n > 0 {
        NoneWatched(n - 1);
        assert seq(n, _ => EMPTY_SHARD)[1..] == seq(n - 1, _ => EMPTY_SHARD);
      }
    }

    // -- memory counters ------------------------------------------------------

    method AddMemory(db: nat, bytes: nat)
      requires db < |memory|
      modifies this`memory
      ensures memory == old(memory)[db := old(memory)[db] + bytes]
    {
      memory := memory[db := memory[db] + bytes];
    }

    /** Saturating, so a drifted counter cannot underflow. */
    method SubMemory(db: nat, bytes: nat)
      requires db < |memory|
      modifies this`memory
      ensures memory == old(memory)[db := if old(memory)[db] >= bytes then old(memory)[db] - bytes else 0]
    {
      memory := memory[db := if memory[db] >= bytes then memory[db] - bytes else 0];
    }

    /** Moves the counter from one object size to another. */
    method AdjustMemory(db: nat, oldMem: nat, newMem: nat)
      requires db < |memory| && oldMem <= memory[db]
      modifies this`memory
      ensures memory == old(memory)[db := old(memory)[db] - oldMem + newMem]
    {
      if newMem >= oldMem {
        AddMemory(db, newMem - oldMem);
      } else {
        SubMemory(db, oldMem - newMem);
      }
    }

    // -- tracked key operations -----------------------------------------------

    method Insert(db: nat, key: Key, value: Stored) returns (previous: Option<Stored>)
      requires Valid() && db < |shards|
      modifies this
      ensures Valid() && OnlyData(old(State()), db, State())
      ensures shards[db].data == old(shards[db].data)[key := value]
      ensures previous == if key in old(shards[db].data) then Some(old(shards[db].data)[key]) else None
    {
      hide Footprint, Deadlines, Estimate, Ok;
      var sh := shards[db];
      OkShard(State(), db);
      FootprintInsert(sh.data, key, value);
      SyncExpiresExact(sh.data, key, value);
      var newMem := Estimate(key, value);
      var expires := SyncExpires(sh.expires, key, value.Deadline());
      previous := if key in sh.data then Some(sh.data[key]) else None;
      shards := shards[db := sh.(expires := expires, data := sh.data[key := value])];
      if previous.Some? {
        FootprintRemove(sh.data, key);
        AdjustMemory(db, Estimate(key, previous.value), newMem);
      } else {
        FootprintAbsent(sh.data, key);
        AddMemory(db, newMem);
      }
      DataUpdateOk(old(State()), db, shards[db], memory[db], State());
    }

    method Remove(db: nat, key: Key) returns (removed: Option<Stored>)
      requires Valid() && db < |shards|
      modifies this
      ensures Valid() && OnlyData(old(State()), db, State())
      ensures shards[db].data == old(shards[db].data) - {key}
      ensures removed == if key in old(shards[db].data) then Some(old(shards[db].data)[key]) else None
    {
      var taken := TakeWithEstimate(db, key);
      removed := if taken.Some? then Some(taken.value.0) else None;
    }

    method TakeWithEstimate(db: nat, key: Key) returns (taken: Option<(Stored, nat)>)
      requires Valid() && db < |shards|
      modifies this
      ensures Valid() && OnlyData(old(State()), db, State())
      ensures shards[db].data == old(shards[db].data) - {key}
      ensures taken.Some? <==> key in old(shards[db].data)
      ensures taken.Some? ==> taken.value == (old(shards[db].data)[key], Estimate(key, taken.value.0))
      ensures taken.Some? ==> memory[db] + taken.value.1 == old(memory[db])
      ensures taken.None? ==> memory == old(memory)
    {
      hide Footprint, Deadlines, Estimate, Ok;
      var sh := shards[db];
      OkShard(State(), db);
      if key !in sh.data {
        FootprintAbsent(sh.data, key);
        return None;
      }
      FootprintRemove(sh.data, key);
      SyncExpiresExact(sh.data, key, sh.data[key]);
      var value := sh.data[key];
      var freed := Estimate(key, value);
      shards := shards[db := sh.(data := sh.data - {key}, expires := sh.expires - {key})];
      SubMemory(db, freed);
      DataUpdateOk(old(State()), db, shards[db], memory[db], State());
      taken := Some((value, freed));
    }

    /** For a value taken under the same key; the key must be free here. */
    method InsertWithEstimate(db: nat, key: Key, value: Stored, estimate: nat)
      requires Valid() && db < |shards| && key !in shards[db].data && estimate == Estimate(key, value)
      modifies this
      ensures Valid() && OnlyData(old(State()), db, State())
      ensures shards[db].data == old(shards[db].data)[key := value]
      ensures memory[db] == old(memory[db]) + estimate
    {
      hide Footprint, Deadlines, Estimate, Ok;
      var sh := shards[db];
      OkShard(State(), db);
      FootprintInsert(sh.data, key, value);
      FootprintAbsent(sh.data, key);
      SyncExpiresExact(sh.data, key, value);
      var expires := SyncExpires(sh.expires, key, value.Deadline());
      shards := shards[db := sh.(expires := expires, data := sh.data[key := value])];
      AddMemory(db, estimate);
      DataUpdateOk(old(State()), db, shards[db], memory[db], State());
    }

    /** Moving a key between databases conserves the total. */
    method MoveKey(from: nat, to: nat, key: Key) returns (moved: bool)
      requires Valid() && from < |shards| && to < |shards| && from != to
      modifies this
      ensures |shards| == |old(shards)| && |memory| == |old(memory)| && |memory| == |shards|
      ensures moved <==> key in old(shards[from].data) && key !in old(shards[to].data)
      ensures !moved ==> State() == old(State())
      ensures moved ==> shards[from].data == old(shards[from].data) - {key}
      ensures moved ==> shards[to].data == old(shards[to].data)[key := old(shards[from].data)[key]]
      ensures memory[from] + memory[to] == old(memory[from] + memory[to])
      ensures forall i :: 0 <= i < |shards| && i != from && i != to ==>
        shards[i] == old(shards)[i] && memory[i] == old(memory)[i]
      ensures Valid() && WatchStep(old(State()), Write({}), State())
    {
      hide Ok, Estimate;
      OkShard(State(), from);
      if key !in shards[from].data || key in shards[to].data { return false; }
      var taken := TakeWithEstimate(from, key);
      InsertWithEstimate(to, key, taken.value.0, taken.value.1);
      moved := true;
    }

    /** Only the key-length share of the estimate moves; an overwritten target is released in full. */
    method Rename(db: nat, source: Key, target: Key) returns (renamed: bool)
      requires Valid() && db < |shards|
      modifies this
      ensures Valid() && OnlyData(old(State()), db, State())
      ensures renamed <==> source in old(shards[db].data)
      ensures !renamed ==> shards == old(shards) && memory == old(memory)
      ensures renamed ==> shards[db].data == (old(shards[db].data) - {source})[target := old(shards[db].data)[source]]
    {
      hide Footprint, Deadlines, Ok;
      var sh := shards[db];
      OkShard(State(), db);
      if source !in sh.data { return false; }
      RenameFacts(sh.data, source, target);
      var value := sh.data[source];
      var rest := sh.data - {source};
      var expires := sh.expires - {source};

      if target in rest { SubMemory(db, Estimate(target, rest[target])); }
      rest := rest - {target};
      expires := expires - {target};

      if |target| >= |source| {
        AddMemory(db, |target| - |source|);
      } else {
        SubMemory(db, |source| - |target|);
      }
      expires := SyncExpires(expires, target, value.Deadline());
      shards := shards[db := sh.(data := rest[target := value], expires := expires)];
      assert rest[target := value] == (sh.data - {source})[target := value];
      DataUpdateOk(old(State()), db, shards[db], memory[db], State());
      renamed := true;
    }

    static function Redated(value: Stored, at: Option<int>): Stored {
      value.(expireAt := if at.Some? then at.value else 0)
    }

    method SetKeyExpiry(db: nat, key: Key, at: Option<int>) returns (found: bool)
      requires Valid() && db < |shards|
      modifies this
      ensures Valid() && OnlyData(old(State()), db, State())
      ensures found <==> key in old(shards[db].data)
      ensures !found ==> shards == old(shards)
      ensures found ==> shards[db].data == old(shards[db].data)[key := Redated(old(shards[db].data)[key], at)]
    {
      hide Footprint, Deadlines, Ok;
      var sh := shards[db];
      OkShard(State(), db);
      if key !in sh.data { return false; }
      var value := Redated(sh.data[key], at);
      FootprintRemove(sh.data, key);
      FootprintInsert(sh.data, key, value);
      SyncExpiresExact(sh.data, key, value);
      shards := shards[db := sh.(data := sh.data[key := value], expires := SyncExpires(sh.expires, key, at))];
      assert memory[db := memory[db]] == memory;
      DataUpdateOk(old(State()), db, shards[db], memory[db], State());
      found := true;
    }

    /** The value an edited string is stored as: re-encoded, deadline kept, clock reset. */
    static function Edited(value: Stored, bytes: Bytes): Stored {
      var fresh' := StringValue(bytes, value.expireAt);
      value.(data := fresh'.data, encoding := fresh'.encoding, lru := 0)
    }

    /**
     * Edits a string in place. `f` maps the bytes to a result, whether they were
     * modified, and the bytes left in the buffer, which it must not touch when it
     * reports no modification. `unique` tells whether the stored buffer is unshared.
     */
    method MutateString<R>(db: nat, key: Key, f: Bytes -> (R, bool, Bytes), unique: bool) returns (result: Option<R>)
      requires Valid() && db < |shards|
      requires forall b :: !f(b).1 ==> f(b).2 == b
      modifies this
      ensures Valid() && OnlyData(old(State()), db, State())
      ensures var data := old(shards[db].data);
        if key !in data then
          && result == Some(f([]).0)
          && shards[db].data == if f([]).1 then data[key := StringValue(f([]).2, 0)] else data
        else if !data[key].IsString() then
          result == None && shards[db].data == data
        else
          var b := StringBytes(data[key].data).value;
          && result == Some(f(b).0)
          && shards[db].data == if f(b).1 then data[key := Edited(data[key], f(b).2)] else data
    {
      hide Footprint, Deadlines, Estimate, Ok;
      var sh := shards[db];
      OkShard(State(), db);
      if key !in sh.data {
        var (r, modified, bytes) := f([]);
        if modified { var _ := Insert(db, key, StringValue(bytes, 0)); }
        return Some(r);
      }
      var entry := sh.data[key];
      if !entry.IsString() { return None; }
      var oldMem := Estimate(key, entry);
      var buf := if entry.data.String? then entry.data.bytes else Print(entry.data.n);
      var original := if entry.data.String? && unique then None else Some(entry.data);
      var (r, modified, bytes) := f(buf);
      var value;
      if modified {
        value := Edited(entry, bytes);
      } else {
        value := entry.(data := if original.Some? then original.value else String(bytes));
        assert value == entry;
      }
      FootprintRemove(sh.data, key);
      FootprintInsert(sh.data, key, value);
      SyncExpiresExact(sh.data, key, value);
      SyncExpiresExact(sh.data, key, entry);
      assert sh.data[key := entry] == sh.data;
      shards := shards[db := sh.(data := sh.data[key := value])];
      AdjustMemory(db, oldMem, Estimate(key, value));
      DataUpdateOk(old(State()), db, shards[db], memory[db], State());
      result := Some(r);
    }

    // -- WATCH ----------------------------------------------------------------

    method WatchKey(db: nat, key: Key) returns (version: nat)
      requires Valid() && db < |shards|
      modifies this
      ensures Valid() && WatchStep(old(State()), Watch(db, key), State())
      ensures |shards| == |old(shards)| && forall i :: 0 <= i < |shards| ==> shards[i].data == old(shards)[i].data
      ensures version == (if key in old(shards[db].keyVersions) then old(shards[db].keyVersions)[key] else 0)
    {
      hide Footprint, Deadlines, Ok;
      var sh := shards[db];
      OkShard(State(), db);
      var refs := if key in sh.watchRefs then sh.watchRefs[key] else 0;
      if refs == 0 { watchedKeys := watchedKeys + 1; }
      var sh' := sh.(watchRefs := sh.watchRefs[key := refs + 1]);
      shards := shards[db := sh'];
      TablesUpdateOk(old(State()), db, sh', State());
      version := if key in sh.keyVersions then sh.keyVersions[key] else 0;
    }

    method UnwatchKey(db: nat, key: Key)
      requires Valid() && db < |shards|
      modifies this
      ensures Valid() && WatchStep(old(State()), Unwatch(db, key), State())
      ensures |shards| == |old(shards)| && forall i :: 0 <= i < |shards| ==> shards[i].data == old(shards)[i].data
    {
      hide Footprint, Deadlines, Ok, WatchOk;
      var sh := shards[db];
      OkShard(State(), db);
      if key !in sh.watchRefs { return; }
      ReleaseFacts(sh, key, nextVersion);
      var refs := sh.watchRefs[key] - 1;
      var sh' := sh.(watchRefs := sh.watchRefs[key := refs]);
      if refs == 0 {
        sh' := sh'.(watchRefs := sh'.watchRefs - {key}, keyVersions := sh'.keyVersions - {key});
        watchedKeys := watchedKeys - 1;
        assert sh.watchRefs[key := refs] - {key} == sh.watchRefs - {key};
      }
      shards := shards[db := sh'];
      TablesUpdateOk(old(State()), db, sh', State());
    }

    static lemma ReleaseFacts(sh: Shard, key: Key, next: nat)
      requires WatchOk(sh, next) && key in sh.watchRefs
      ensures WatchOk(ReleaseRef(sh, key), next) && sh.watchRefs[key] >= 1
      ensures |ReleaseRef(sh, key).watchRefs| == |sh.watchRefs| - if sh.watchRefs[key] == 1 then 1 else 0
    {
      if sh.watchRefs[key] == 1 {
        assert sh.watchRefs == (sh.watchRefs - {key})[key := 1];
      } else {
        assert sh.watchRefs[key := sh.watchRefs[key] - 1].Keys == sh.watchRefs.Keys;
      }
    }

    method RecordModification(db: nat, key: Key)
      requires Valid() && db < |shards|
      modifies this
      ensures Valid() && State() == Bumped(old(State()), db, key)
      ensures SameData(old(State()), State()) && Recorded(old(State()), {(db, key)}, State())
    {
      BumpedOk(State(), db, key);
      var sh := shards[db];
      if key in sh.watchRefs {
        shards := shards[db := sh.(keyVersions := sh.keyVersions[key := nextVersion])];
        nextVersion := nextVersion + 1;
      }
    }

    /** The skip when nothing is watched anywhere loses no recording. */
    method TouchKeyVersion(db: nat, key: Key)
      requires Valid() && db < |shards|
      modifies this
      ensures Valid() && SameData(old(State()), State()) && Recorded(old(State()), {(db, key)}, State())
    {
      if watchedKeys == 0 {
        WatchedTotalUpdate(shards, db, shards[db]);
        assert Bumped(State(), db, key) == State();
        BumpedOk(State(), db, key);
        return;
      }
      RecordModification(db, key);
    }

    /** Marks every watched key that currently exists, in any order. */
    method RecordWatchedExisting(db: nat) returns (ghost recorded: set<(nat, Key)>)
      requires Valid() && db < |shards|
      modifies this
      ensures Valid() && SameData(old(State()), State()) && Recorded(old(State()), recorded, State())
      ensures recorded == Marks(db, old(shards)[db].watchRefs, old(shards)[db].data)
      ensures forall i :: 0 <= i < |shards| ==> shards[i].watchRefs == old(shards)[i].watchRefs
    {
      hide Ok, Recorded;
      var existing := set k | k in shards[db].watchRefs && k in shards[db].data;
      var left := existing;
      recorded := {};
      RecordedStart(State());
      while left != {}
        invariant left <= existing && Ok(State())
        invariant SameData(old(State()), State()) && Recorded(old(State()), recorded, State())
        invariant forall i :: 0 <= i < |shards| ==> shards[i].watchRefs == old(shards)[i].watchRefs
        invariant recorded == set k | k in existing && k !in left :: (db, k)
      {
        var k :| k in left;
        ghost var mid := State();
        RecordModification(db, k);
        RecordedCompose(old(State()), recorded, mid, {(db, k)}, State());
        recorded := recorded + {(db, k)};
        left := left - {k};
      }
    }

    static lemma RecordedStart(s: Store)
      ensures Recorded(s, {}, s)
    {
    }

    // -- operations that replace data behind WATCH ----------------------------

    method PurgeExpiredKey(db: nat, key: Key, now: int) returns (purged: bool)
      requires Valid() && db < |shards|
      modifies this
      ensures Valid() && |shards| == |old(shards)|
      ensures purged <==> key in old(shards[db].data) && old(shards[db].data)[key].ExpiredAt(now)
      ensures !purged ==> State() == old(State())
      ensures purged ==> shards[db].data == old(shards[db].data) - {key}
      ensures purged ==> Recorded(old(State()), {(db, key)}, State())
      ensures |shards| == |old(shards)| && forall i :: 0 <= i < |shards| && i != db ==>
        shards[i].data == old(shards)[i].data
    {
      if !(key in shards[db].data && shards[db].data[key].ExpiredAt(now)) { return false; }
      purged := RemoveAndRecord(db, key);
    }

    /** Removes a key and records it, as expiry and lazy deletion do. */
    method RemoveAndRecord(db: nat, key: Key) returns (removed: bool)
      requires Valid() && db < |shards|
      modifies this
      ensures Valid() && |shards| == |old(shards)|
      ensures removed <==> key in old(shards[db].data)
      ensures !removed ==> State() == old(State())
      ensures shards[db].data == old(shards[db].data) - {key}
      ensures removed ==> Recorded(old(State()), {(db, key)}, State())
      ensures Elsewhere(old(State()), db, State())
      ensures forall i :: 0 <= i < |shards| ==> shards[i].watchRefs == old(shards)[i].watchRefs
    {
      hide Ok;
      OkShard(State(), db);
      if key !in shards[db].data {
        FootprintAbsent(shards[db].data, key);
        return false;
      }
      ghost var s := State();
      var _ := Remove(db, key);
      ghost var t := State();
      RecordModification(db, key);
      RemovalRecorded(s, db, key, t, State());
      removed := true;
    }

    static lemma RemovalRecorded(s: Store, db: nat, key: Key, t: Store, u: Store)
      requires OnlyData(s, db, t) && t.shards[db].data == s.shards[db].data - {key}
      requires SameData(t, u) && Recorded(t, {(db, key)}, u)
      ensures Recorded(s, {(db, key)}, u)
    {
      assert forall i :: 0 <= i < |s.shards| ==> SameTables(s.shards[i], t.shards[i]);
      forall i | 0 <= i < |s.shards|
        ensures RecordsIn(s.shards[i], s.nextVersion, i, {(db, key)}, u.shards[i], u.nextVersion)
      {
        assert RecordsIn(t.shards[i], t.nextVersion, i, {(db, key)}, u.shards[i], u.nextVersion);
      }
    }

    /** UNLINK: the value itself is freed elsewhere. */
    method LazyFreeDel(db: nat, key: Key) returns (deleted: bool)
      requires Valid() && db < |shards|
      modifies this
      ensures Valid() && |shards| == |old(shards)|
      ensures deleted <==> key in old(shards[db].data)
      ensures shards[db].data == old(shards[db].data) - {key}
      ensures deleted ==> Recorded(old(State()), {(db, key)}, State())
      ensures !deleted ==> State() == old(State())
      ensures Elsewhere(old(State()), db, State())
    {
      deleted := RemoveAndRecord(db, key);
    }

    static function Expired(data: map<Key, Stored>, now: int): set<Key> {
      set k | k in data && data[k].ExpiredAt(now)
    }

    method PurgeExpiredKeys(db: nat, now: int) returns (ghost recorded: set<(nat, Key)>)
      requires Valid() && db < |shards|
      modifies this
      ensures Valid() && Recorded(old(State()), recorded, State()) && |shards| == |old(shards)|
      ensures shards[db].data == old(shards[db].data) - Expired(old(shards[db].data), now)
      ensures recorded == KeysOf(db, Expired(old(shards[db].data), now))
      ensures Elsewhere(old(State()), db, State())
    {
      hide Ok, Recorded, Elsewhere, KeysOf;
      ghost var before := shards[db].data;
      var expired := Expired(shards[db].data, now);
      var left := expired;
      recorded := {};
      RecordedStart(State());
      OkShard(State(), db);
      SameElsewhere(State(), db);
      NoKeys(db);
      assert expired - left == {} && before - {} == before;
      while left != {}
        invariant left <= expired && Ok(State()) && |shards| == |old(shards)|
        invariant Recorded(old(State()), recorded, State())
        invariant shards[db].data == before - (expired - left)
        invariant recorded == KeysOf(db, expired - left)
        invariant Elsewhere(old(State()), db, State())
      {
        var k :| k in left;
        ghost var mid := State();
        var removed := RemoveAndRecord(db, k);
        RecordedCompose(old(State()), recorded, mid, {(db, k)}, State());
        ElsewhereTrans(old(State()), db, mid, State());
        OneMoreGone(db, before, expired, left, k);
        recorded := recorded + {(db, k)};
        left := left - {k};
      }
      assert expired - left == expired;
    }

    static lemma OneMoreGone(db: nat, data: map<Key, Stored>, gone: set<Key>, left: set<Key>, k: Key)
      requires k in left && left <= gone
      ensures data - (gone - left) - {k} == data - (gone - (left - {k}))
      ensures KeysOf(db, gone - (left - {k})) == KeysOf(db, gone - left) + {(db, k)}
    {
    }

    /** Replaces one database's contents, with its index and counter. */
    method ReplaceData(db: nat, data: map<Key, Stored>, expires: map<Key, int>, mem: nat)
      requires Valid() && db < |shards| && expires == Deadlines(data) && mem == Footprint(data)
      modifies this
      ensures Valid() && OnlyData(old(State()), db, State())
      ensures shards[db].data == data && memory[db] == mem
    {
      hide Footprint, Deadlines;
      shards := shards[db := shards[db].(data := data, expires := expires)];
      memory := memory[db := mem];
      DataUpdateOk(old(State()), db, shards[db], memory[db], State());
    }

    /** FLUSHDB; lazy flushing differs only in where the old values are freed. */
    method ClearDb(db: nat) returns (ghost recorded: set<(nat, Key)>)
      requires Valid() && db < |shards|
      modifies this
      ensures Valid() && Recorded(old(State()), recorded, State())
      ensures shards[db].data == map[] && |shards| == |old(shards)|
      ensures forall i :: 0 <= i < |shards| && i != db ==> shards[i].data == old(shards)[i].data
      ensures recorded == Marks(db, old(shards)[db].watchRefs, old(shards)[db].data)
      ensures forall i :: 0 <= i < |shards| ==> shards[i].watchRefs == old(shards)[i].watchRefs
    {
      hide Ok, WatchStep;
      ghost var s := State();
      recorded := RecordWatchedExisting(db);
      ghost var t := State();
      ReplaceData(db, map[], map[], 0);
      QuietStep(State());
      ReplacedBetween(s, recorded, t, State(), {}, State());
      assert recorded + {} == recorded;
    }

    static lemma QuietStep(s: Store)
      ensures WatchStep(s, Write({}), s) && SameData(s, s)
    {
    }

    method ClearAllDbs() returns (ghost recorded: set<(nat, Key)>)
      requires Valid()
      modifies this
      ensures Valid() && Recorded(old(State()), recorded, State())
      ensures |shards| == |old(shards)| && forall i :: 0 <= i < |shards| ==> shards[i].data == map[]
      ensures forall i, k :: (i, k) in recorded <==>
        0 <= i < |shards| && (i, k) in Marks(i, old(shards)[i].watchRefs, old(shards)[i].data)
    {
      hide Ok, Recorded;
      recorded := {};
      RecordedStart(State());
      for db := 0 to |shards|
        invariant Ok(State()) && |shards| == |old(shards)|
        invariant Recorded(old(State()), recorded, State())
        invariant forall i :: 0 <= i < db ==> shards[i].data == map[]
        invariant forall i :: db <= i < |shards| ==> shards[i].data == old(shards)[i].data
        invariant forall i :: 0 <= i < |shards| ==> shards[i].watchRefs == old(shards)[i].watchRefs
        invariant forall i, k :: (i, k) in recorded <==>
          0 <= i < db && (i, k) in Marks(i, old(shards)[i].watchRefs, old(shards)[i].data)
      {
        ghost var mid := State();
        ghost var more := ClearDb(db);
        RecordedCompose(old(State()), recorded, mid, more, State());
        recorded := recorded + more;
      }
    }

    /** SWAPDB: registrations stay with the index; contents and counters change sides. */
    method SwapDbs(left: nat, right: nat) returns (ghost recorded: set<(nat, Key)>)
      requires Valid() && left < |shards| && right < |shards| && left != right
      modifies this
      ensures Valid() && Recorded(old(State()), recorded, State()) && |shards| == |old(shards)|
      ensures shards[left].data == old(shards[right].data) && shards[right].data == old(shards[left].data)
      ensures |memory| == |old(memory)| && |memory| == |shards|
      ensures memory[left] == old(memory[right]) && memory[right] == old(memory[left])
      ensures forall i :: 0 <= i < |shards| && i != left && i != right ==> shards[i].data == old(shards)[i].data
      ensures var l, r := old(shards)[left], old(shards)[right];
        recorded == Marks(left, l.watchRefs, l.data) + Marks(left, l.watchRefs, r.data)
                  + Marks(right, r.watchRefs, r.data) + Marks(right, r.watchRefs, l.data)
    {
      hide Ok, WatchStep, ChangesRecorded;
      ghost var s := State();
      OkShard(s, left);
      ghost var a := RecordBoth(left, right);
      ghost var t := State();
      SwapContents(left, right);
      ghost var u := State();
      ghost var b := RecordBoth(left, right);
      SwapChanges(s, left, right, a + b, u);
      ReplacedBetween(s, a, t, u, b, State());
      recorded := a + b;
    }

    method RecordBoth(left: nat, right: nat) returns (ghost recorded: set<(nat, Key)>)
      requires Valid() && left < |shards| && right < |shards|
      modifies this
      ensures Valid() && SameData(old(State()), State()) && WatchStep(old(State()), Write(recorded), State())
      ensures recorded == Marks(left, old(shards)[left].watchRefs, old(shards)[left].data)
                        + Marks(right, old(shards)[right].watchRefs, old(shards)[right].data)
      ensures forall i :: 0 <= i < |shards| ==> shards[i].watchRefs == old(shards)[i].watchRefs
    {
      hide Ok, WatchStep, ChangesRecorded;
      ghost var s := State();
      ghost var a := RecordWatchedExisting(left);
      ghost var t := State();
      ghost var b := RecordWatchedExisting(right);
      WriteCompose(s, a, t, b, State());
      recorded := a + b;
    }

    static lemma SwapChanges(s: Store, left: nat, right: nat, recorded: set<(nat, Key)>, u: Store)
      requires |u.shards| == |s.shards| && left < |s.shards| && right < |s.shards|
      requires forall i :: 0 <= i < |s.shards| && i != left && i != right ==> u.shards[i].data == s.shards[i].data
      requires MarksBoth(s.shards[left], u.shards[left], left, recorded)
      requires MarksBoth(s.shards[right], u.shards[right], right, recorded)
      ensures ChangesRecorded(s, recorded, u)
    {
    }

    /** Every watched key with a value before or after is recorded. */
    static ghost predicate MarksBoth(before: Shard, after: Shard, db: nat, recorded: set<(nat, Key)>) {
      Marks(db, before.watchRefs, before.data) + Marks(db, before.watchRefs, after.data) <= recorded
    }

    method SwapContents(left: nat, right: nat)
      requires Valid() && left < |shards| && right < |shards| && left != right
      modifies this
      ensures Valid() && |shards| == |old(shards)| && nextVersion == old(nextVersion)
      ensures forall i :: 0 <= i < |shards| ==> SameTables(old(shards)[i], shards[i])
      ensures shards[left].data == old(shards[right].data) && shards[right].data == old(shards[left].data)
      ensures |memory| == |old(memory)| && |memory| == |shards|
      ensures memory[left] == old(memory[right]) && memory[right] == old(memory[left])
      ensures forall i :: 0 <= i < |shards| && i != left && i != right ==> shards[i] == old(shards)[i]
    {
      hide Ok, Footprint, Deadlines;
      OkShard(State(), left);
      OkShard(State(), right);
      var a, b := shards[left], shards[right];
      var leftMemory, rightMemory := memory[left], memory[right];
      ReplaceData(left, b.data, b.expires, rightMemory);
      ReplaceData(right, a.data, a.expires, leftMemory);
    }

    /** The index and the counter of freshly loaded data, by one pass over it. */
    static method Rebuild(data: map<Key, Stored>) returns (expires: map<Key, int>, mem: nat)
      ensures expires == Deadlines(data) && mem == Footprint(data)
    {
      hide Estimate, Footprint, Deadlines;
      expires, mem := map[], 0;
      var left := data.Keys;
      EmptyFootprint();
      assert data - left == map[];
      while left != {}
        invariant left <= data.Keys
        invariant expires == Deadlines(data - left) && mem == Footprint(data - left)
      {
        var k :| k in left;
        OneLess(data, left, k);
        FootprintInsert(data - left, k, data[k]);
        FootprintAbsent(data - left, k);
        AddDeadline(data - left, k, data[k]);
        mem := mem + Estimate(k, data[k]);
        if data[k].Deadline().Some? { expires := expires[k := data[k].expireAt]; }
        left := left - {k};
      }
      assert data - left == data;
    }

    static lemma OneLess(data: map<Key, Stored>, left: set<Key>, k: Key)
      requires k in left && left <= data.Keys
      ensures data - (left - {k}) == (data - left)[k := data[k]]
    {
    }

    static lemma AddDeadline(done: map<Key, Stored>, k: Key, value: Stored)
      requires k !in done
      ensures Deadlines(done[k := value])
           == if value.Deadline().Some? then Deadlines(done)[k := value.expireAt] else Deadlines(done)
    {
    }

    static lemma EmptyFootprint()
      ensures Footprint(map[]) == 0 && Deadlines(map[]) == map[]
    {
    }

    /** Loads as many databases as the snapshot and the server both have. */
    method LoadFromSnapshot(snapshot: seq<map<Key, Stored>>) returns (ghost recorded: set<(nat, Key)>)
      requires Valid()
      modifies this
      ensures Valid() && Recorded(old(State()), recorded, State()) && |shards| == |old(shards)|
      ensures forall i :: 0 <= i < |shards| ==>
        shards[i].data == if i < |snapshot| then snapshot[i] else old(shards)[i].data
      ensures forall i, k :: (i, k) in recorded <==>
        0 <= i < |shards| && i < |snapshot| && (i, k) in Reloaded(i, old(shards)[i], snapshot[i])
    {
      hide Ok, Recorded;
      recorded := {};
      RecordedStart(State());
      var n := if |snapshot| < |shards| then |snapshot| else |shards|;
      for db := 0 to n
        invariant Ok(State()) && |shards| == |old(shards)|
        invariant Recorded(old(State()), recorded, State())
        invariant forall i :: 0 <= i < |shards| ==>
          shards[i].data == if i < db then snapshot[i] else old(shards)[i].data
        invariant forall i :: 0 <= i < |shards| ==> shards[i].watchRefs == old(shards)[i].watchRefs
        invariant forall i, k :: (i, k) in recorded <==>
          0 <= i < db && (i, k) in Reloaded(i, old(shards)[i], snapshot[i])
      {
        ghost var mid := State();
        ghost var more := LoadDb(db, snapshot[db]);
        RecordedCompose(old(State()), recorded, mid, more, State());
        recorded := recorded + more;
      }
    }

    /** What loading records: the watched keys that had a value or get one. */
    static ghost function Reloaded(db: nat, sh: Shard, data: map<Key, Stored>): set<(nat, Key)> {
      Marks(db, sh.watchRefs, sh.data) + Marks(db, sh.watchRefs, data)
    }

    method LoadDb(db: nat, data: map<Key, Stored>) returns (ghost recorded: set<(nat, Key)>)
      requires Valid() && db < |shards|
      modifies this
      ensures Valid() && Recorded(old(State()), recorded, State()) && |shards| == |old(shards)|
      ensures shards[db].data == data
      ensures forall i :: 0 <= i < |shards| && i != db ==> shards[i].data == old(shards)[i].data
      ensures forall i :: 0 <= i < |shards| ==> shards[i].watchRefs == old(shards)[i].watchRefs
      ensures recorded == Reloaded(db, old(shards)[db], data)
    {
      hide Ok, WatchStep, Footprint, Deadlines;
      ghost var s := State();
      ghost var a := RecordWatchedExisting(db);
      ghost var t := State();
      var expires, mem := Rebuild(data);
      ReplaceData(db, data, expires, mem);
      ghost var u := State();
      ghost var b := RecordWatchedExisting(db);
      ReplacedBetween(s, a, t, u, b, State());
      recorded := a + b;
    }

    /** The periodic correction: from any drifted counters, each becomes the sum again. */
    method RecomputeMemory() returns (total: nat)
      requires |memory| == |shards|
      modifies this`memory
      ensures |memory| == |shards|
      ensures forall i :: 0 <= i < |shards| ==> memory[i] == Footprint(shards[i].data)
      ensures total == SumAll(memory)
    {
      total := 0;
      for db := 0 to |shards|
        invariant |memory| == |shards|
        invariant forall i :: 0 <= i < db ==> memory[i] == Footprint(shards[i].data)
        invariant total == SumAll(memory[..db])
      {
        var _, bytes := Rebuild(shards[db].data);
        memory := memory[db := bytes];
        assert memory[..db + 1] == memory[..db] + [bytes];
        SumAllPush(memory[..db], bytes);
        total := total + bytes;
      }
      assert memory[..|shards|] == memory;
    }
  }

  ghost function SumAll(s: seq<nat>): nat {
    if s == [] then 0 else s[0] + SumAll(s[1..])
  }

  lemma {:induction false} SumAllPush(s: seq<nat>, x: nat)
    ensures SumAll(s + [x]) == SumAll(s) + x
  {
    if s != [] {
      assert (s + [x])[1..] == s[1..] + [x];
      SumAllPush(s[1..], x);
    }
  }

  lemma {:induction false} SumAllUpdate(s: seq<nat>, i: nat, x: nat)
    requires i < |s|
    ensures SumAll(s[i := x]) == SumAll(s) - s[i] + x && s[i] <= SumAll(s)
  {
    if i > 0 {
      assert s[i := x][1..] == s[1..][i - 1 := x];
      SumAllUpdate(s[1..], i - 1, x);
    }
  }
}
