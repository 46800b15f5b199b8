/**
 * WATCH over whole runs: while a registration is held, the version a client
 * saw is unchanged exactly when no modification of its key was recorded.
 */
module WatchRuns {
  import opened Base
  import opened Values
  import opened Keyspace
  import DS = DataState
  import EV = Eviction

  ghost predicate IsRun(states: seq<Store>, events: seq<Event>) {
    |states| == |events| + 1
    && forall i :: 0 <= i < |events| ==> WatchStep(states[i], events[i], states[i + 1])
  }

  ghost predicate TablesOk(s: Store) {
    s.nextVersion >= 1 && forall i :: 0 <= i < |s.shards| ==> WatchOk(s.shards[i], s.nextVersion)
  }

  function Refs(s: Store, db: nat, key: Key): nat
    requires db < |s.shards|
  {
    if key in s.shards[db].watchRefs then s.shards[db].watchRefs[key] else 0
  }

  /** The version a client reads; an unrecorded key reads as zero. */
  function Version(s: Store, db: nat, key: Key): nat
    requires db < |s.shards|
  {
    if key in s.shards[db].keyVersions then s.shards[db].keyVersions[key] else 0
  }

  predicate Records(e: Event, db: nat, key: Key) {
    e.Write? && (db, key) in e.recorded
  }

  /** Registrations minus releases of one key along some events. */
  function Balance(events: seq<Event>, db: nat, key: Key): int {
    if events == [] then 0
    else
      var e := events[|events| - 1];
      Balance(events[..|events| - 1], db, key)
      + (if e == Watch(db, key) then 1 else if e == Unwatch(db, key) then -1 else 0)
  }

  /**
   * A registration counted in the first state is held throughout: whatever the
   * other clients do, releases never exceed the other registrations.
   */
  ghost predicate Held(states: seq<Store>, events: seq<Event>, db: nat, key: Key) {
    && IsRun(states, events) && db < |states[0].shards| && Refs(states[0], db, key) >= 1
    && forall n :: 0 <= n <= |events| ==> Refs(states[0], db, key) + Balance(events[..n], db, key) >= 1
  }

  lemma StepKeepsTables(s: Store, e: Event, t: Store)
    requires TablesOk(s) && WatchStep(s, e, t)
    ensures TablesOk(t) && s.nextVersion <= t.nextVersion
  {
    forall i | 0 <= i < |t.shards| ensures WatchOk(t.shards[i], t.nextVersion) {
      var a, b := s.shards[i], t.shards[i];
      assert WatchOk(a, s.nextVersion);
      match e {
        case Watch(db, key) => assert SameTables(b, if i == db then AddRef(a, key) else a);
        case Unwatch(db, key) => assert SameTables(b, if i == db then ReleaseRef(a, key) else a);
        case Write(recorded) =>
          assert RecordsIn(a, s.nextVersion, i, recorded, b, t.nextVersion);
          forall k | k in b.keyVersions ensures k in b.watchRefs && b.keyVersions[k] < t.nextVersion {
            if k in a.watchRefs && (i, k) in recorded { } else { assert k in a.keyVersions; }
          }
      }
    }
  }

  lemma StepRefs(s: Store, e: Event, t: Store, db: nat, key: Key)
    requires TablesOk(s) && WatchStep(s, e, t) && db < |s.shards| && Refs(s, db, key) >= 1
    ensures Refs(t, db, key) == Refs(s, db, key) + Balance([e], db, key)
  {
    var a, b := s.shards[db], t.shards[db];
    assert WatchOk(a, s.nextVersion);
    assert [e][..0] == [];
    match e
    case Watch(i, k) => assert SameTables(b, if db == i then AddRef(a, k) else a);
    case Unwatch(i, k) => assert SameTables(b, if db == i then ReleaseRef(a, k) else a);
    case Write(recorded) => assert RecordsIn(a, s.nextVersion, db, recorded, b, t.nextVersion);
  }

  /** While watched before and after, a version moves only when recorded, and then to a fresh one. */
  lemma StepVersion(s: Store, e: Event, t: Store, db: nat, key: Key)
    requires TablesOk(s) && WatchStep(s, e, t) && db < |s.shards|
    requires Refs(s, db, key) >= 1 && Refs(t, db, key) >= 1
    ensures Records(e, db, key) ==> s.nextVersion <= Version(t, db, key)
    ensures !Records(e, db, key) ==> Version(t, db, key) == Version(s, db, key)
  {
    var a, b := s.shards[db], t.shards[db];
    assert WatchOk(a, s.nextVersion);
    match e
    case Watch(i, k) => assert SameTables(b, if db == i then AddRef(a, k) else a);
    case Unwatch(i, k) => assert SameTables(b, if db == i then ReleaseRef(a, k) else a);
    case Write(recorded) => assert RecordsIn(a, s.nextVersion, db, recorded, b, t.nextVersion);
  }

  lemma {:induction false} RunFacts(states: seq<Store>, events: seq<Event>, db: nat, key: Key, n: nat)
    requires Held(states, events, db, key) && TablesOk(states[0]) && n <= |events|
    ensures TablesOk(states[n]) && states[0].nextVersion <= states[n].nextVersion
    ensures |states[n].shards| == |states[0].shards|
    ensures Refs(states[n], db, key) == Refs(states[0], db, key) + Balance(events[..n], db, key)
    ensures if exists i :: 0 <= i < n && Records(events[i], db, key)
            then states[0].nextVersion <= Version(states[n], db, key)
            else Version(states[n], db, key) == Version(states[0], db, key)
    decreases n
  {
    hide WatchStep, TablesOk, Version, Refs;
    if n > 0 {
      RunFacts(states, events, db, key, n - 1);
      var s, e, t := states[n - 1], events[n - 1], states[n];
      assert WatchStep(s, e, t);
      StepKeepsTables(s, e, t);
      assert Refs(states[0], db, key) + Balance(events[..n - 1], db, key) >= 1;
      assert Refs(states[0], db, key) + Balance(events[..n], db, key) >= 1;
      SameShardCount(s, e, t);
      StepRefs(s, e, t, db, key);
      assert events[..n][..n - 1] == events[..n - 1];
      assert [e][..0] == [];
      StepVersion(s, e, t, db, key);
    }
  }

  lemma SameShardCount(s: Store, e: Event, t: Store)
    requires WatchStep(s, e, t)
    ensures |t.shards| == |s.shards|
  {
  }

  lemma VersionBelowNext(s: Store, db: nat, key: Key)
    requires TablesOk(s) && db < |s.shards|
    ensures Version(s, db, key) < s.nextVersion
  {
    assert WatchOk(s.shards[db], s.nextVersion);
  }

  /** The version EXEC compares differs from the one WATCH returned exactly when a modification was recorded between. */
  lemma WatchSafety(states: seq<Store>, events: seq<Event>, db: nat, key: Key)
    requires Held(states, events, db, key) && TablesOk(states[0])
    ensures |states[|events|].shards| == |states[0].shards|
    ensures Version(states[|events|], db, key) == Version(states[0], db, key)
       <==> forall i :: 0 <= i < |events| ==> !Records(events[i], db, key)
  {
    RunFacts(states, events, db, key, |events|);
    VersionBelowNext(states[0], db, key);
  }

  // ---- runs of the actual operations ----------------------------------------

  /** An edit of a string's bytes: its result, whether it reports a change, and the bytes it leaves. */
  type Edit = f: Bytes -> (nat, bool, Bytes) | forall b :: !f(b).1 ==> f(b).2 == b witness b => (0, false, b)

  datatype Op =
    | DoInsert(key: Key, value: Stored)
    | DoRemove(key: Key)
    | DoRename(source: Key, target: Key)
    | DoMove(to: nat, key: Key)
    | DoEdit(key: Key, edit: Edit, unique: bool)
    | DoExpire(key: Key, at: Option<int>)
    | DoPurge(key: Key, now: int)
    | DoPurgeAll(now: int)
    | DoUnlink(key: Key)
    | DoFlush
    | DoFlushAll
    | DoSwap(other: nat)
    | DoLoad(snapshot: seq<map<Key, Stored>>)
    | DoEvict(policy: EV.Policy, maxmemory: nat, samples: nat)
    | DoExpireCycle(lookups: nat, thresholdPct: nat, now: int)
    | DoWatch(key: Key)
    | DoUnwatch(key: Key)
    | DoTouch(key: Key)

  predicate InBounds(op: Op, db: nat, count: nat) {
    db < count && (op.DoMove? ==> op.to < count && op.to != db) && (op.DoSwap? ==> op.other < count && op.other != db)
  }

  /** Operations that replace data without the command layer reporting each key. */
  predicate ReplacesBehind(op: Op) {
    || op.DoPurge? || op.DoPurgeAll? || op.DoUnlink? || op.DoFlush? || op.DoFlushAll? || op.DoSwap? || op.DoLoad?
    || op.DoEvict? || op.DoExpireCycle?
  }

  /** Operations of a command on the contents of one database. */
  predicate ChangesOne(op: Op) {
    op.DoInsert? || op.DoRemove? || op.DoRename? || op.DoEdit? || op.DoExpire?
  }

  /** The values an operation brings in carry the clock they are created with. */
  ghost predicate BringsUntouched(op: Op) {
    && (op.DoInsert? ==> op.value.lru == 0)
    && (op.DoLoad? ==> forall i :: 0 <= i < |op.snapshot| ==> EV.UntouchedIn(op.snapshot[i]))
  }

  /** What the event of an operation says about it. */
  ghost predicate Explains(db: nat, op: Op, s: Store, e: Event, t: Store) {
    if op.DoWatch? then e == Watch(db, op.key)
    else if op.DoUnwatch? then e == Unwatch(db, op.key)
    else if op.DoTouch? then e == Write({(db, op.key)})
    else if ReplacesBehind(op) then e.Write? && ChangesRecorded(s, e.recorded, t)
    else e == Write({})
  }

  /** Any operation keeps the storage invariant and is one WATCH event. */
  method Perform(ds: DS.DataState, db: nat, op: Op) returns (ghost e: Event)
    requires ds.Valid() && InBounds(op, db, |ds.shards|)
    modifies ds
    ensures ds.Valid() && WatchStep(old(ds.State()), e, ds.State()) && |ds.shards| == |old(ds.shards)|
    ensures Explains(db, op, old(ds.State()), e, ds.State())
    ensures EV.Untouched(old(ds.shards)) && BringsUntouched(op) ==> EV.Untouched(ds.shards)
  {
    hide Ok, WatchStep, ChangesRecorded;
    ghost var s := ds.State();
    if ReplacesBehind(op) {
      ghost var recorded := PerformReplacement(ds, db, op);
      e := Write(recorded);
      SameShardCount(s, e, ds.State());
      return;
    }
    e := Write({});
    if ChangesOne(op) {
      PerformLocally(ds, db, op);
      return;
    }
    match op {
      case DoMove(to, key) => var _ := ds.MoveKey(db, to, key);
      case DoWatch(key) => var _ := ds.WatchKey(db, key); e := Watch(db, key);
      case DoUnwatch(key) => ds.UnwatchKey(db, key); e := Unwatch(db, key);
      case DoTouch(key) => ds.TouchKeyVersion(db, key); e := Write({(db, key)});
    }
  }

  method PerformLocally(ds: DS.DataState, db: nat, op: Op)
    requires ds.Valid() && db < |ds.shards| && ChangesOne(op)
    modifies ds
    ensures ds.Valid() && WatchStep(old(ds.State()), Write({}), ds.State()) && |ds.shards| == |old(ds.shards)|
    ensures EV.Untouched(old(ds.shards)) && BringsUntouched(op) ==> EV.Untouched(ds.shards)
  {
    hide Ok, WatchStep, EV.Untouched, DS.DataState.Edited, StringValue;
    ghost var s := ds.State();
    match op {
      case DoInsert(key, value) => var _ := ds.Insert(db, key, value);
      case DoRemove(key) => var _ := ds.Remove(db, key);
      case DoRename(a, b) => var _ := ds.Rename(db, a, b);
      case DoEdit(key, edit, unique) =>
        EditsUntouched();
        var _ := ds.MutateString(db, key, edit, unique);
      case DoExpire(key, at) => var _ := ds.SetKeyExpiry(db, key, at);
    }
    OnlyDataIsSilent(s, db, ds.State());
    UntouchedOutside(s, db, ds.State());
  }

  /** A string that was just written carries the clock zero. */
  lemma EditsUntouched()
    ensures forall bytes, at :: StringValue(bytes, at).lru == 0
    ensures forall value, bytes :: DS.DataState.Edited(value, bytes).lru == 0
  {
  }

  lemma UntouchedOutside(s: Store, db: nat, t: Store)
    requires OnlyData(s, db, t)
    ensures EV.Untouched(s.shards) ==> EV.UntouchedIn(s.shards[db].data)
    ensures EV.Untouched(s.shards) && EV.UntouchedIn(t.shards[db].data) ==> EV.Untouched(t.shards)
  {
    hide EV.UntouchedIn;
  }

  method PerformReplacement(ds: DS.DataState, db: nat, op: Op) returns (ghost recorded: set<(nat, Key)>)
    requires ds.Valid() && InBounds(op, db, |ds.shards|) && ReplacesBehind(op)
    modifies ds
    ensures ds.Valid() && DS.Recorded(old(ds.State()), recorded, ds.State())
    ensures EV.Untouched(old(ds.shards)) && BringsUntouched(op) ==> EV.Untouched(ds.shards)
  {
    hide Ok, WatchStep, ChangesRecorded;
    DS.DataState.RecordedStart(ds.State());
    recorded := {};
    match op {
      case DoPurge(key, now) =>
        var purged := ds.PurgeExpiredKey(db, key, now);
        if purged { recorded := {(db, key)}; }
      case DoPurgeAll(now) => recorded := ds.PurgeExpiredKeys(db, now);
      case DoUnlink(key) =>
        var deleted := ds.LazyFreeDel(db, key);
        if deleted { recorded := {(db, key)}; }
      case DoFlush => recorded := ds.ClearDb(db);
      case DoFlushAll => recorded := ds.ClearAllDbs();
      case DoSwap(other) => recorded := ds.SwapDbs(db, other);
      case DoLoad(snapshot) => recorded := ds.LoadFromSnapshot(snapshot);
      case DoEvict(policy, maxmemory, samples) =>
        var evicted;
        evicted, recorded := EV.PerformEviction(ds, policy, maxmemory, samples);
      case DoExpireCycle(lookups, thresholdPct, now) =>
        var total;
        total, recorded := EV.ActiveExpireCycle(ds, lookups, thresholdPct, now);
    }
  }

  /** Any sequence of operations keeps the storage invariant, and its trace is a run whose events explain them. */
  method RunAll(ds: DS.DataState, ops: seq<(nat, Op)>) returns (ghost states: seq<Store>, ghost events: seq<Event>)
    requires ds.Valid() && forall i :: 0 <= i < |ops| ==> InBounds(ops[i].1, ops[i].0, |ds.shards|)
    modifies ds
    ensures ds.Valid() && IsRun(states, events) && |events| == |ops|
    ensures TablesOk(old(ds.State())) && states[0] == old(ds.State()) && states[|ops|] == ds.State()
    ensures forall i :: 0 <= i < |ops| ==> Explains(ops[i].0, ops[i].1, states[i], events[i], states[i + 1])
    ensures |ds.shards| == |old(ds.shards)|
    ensures EV.Untouched(old(ds.shards)) && (forall i :: 0 <= i < |ops| ==> BringsUntouched(ops[i].1)) ==>
      EV.Untouched(ds.shards)
  {
    hide Ok, WatchStep, Explains, EV.Untouched, BringsUntouched;
    OkTables(ds.State());
    states, events := [ds.State()], [];
    for n := 0 to |ops|
      invariant ds.Valid() && |ds.shards| == |old(ds.shards)|
      invariant IsRun(states, events) && |events| == n && states[0] == old(ds.State()) && states[n] == ds.State()
      invariant forall i :: 0 <= i < n ==> Explains(ops[i].0, ops[i].1, states[i], events[i], states[i + 1])
      invariant EV.Untouched(old(ds.shards)) && (forall i :: 0 <= i < n ==> BringsUntouched(ops[i].1)) ==>
        EV.Untouched(ds.shards)
    {
      var (db, op) := ops[n];
      ghost var e := Perform(ds, db, op);
      states := states + [ds.State()];
      events := events + [e];
    }
  }

  /**
   * No operation touches a clock, so on every run from empty databases whose inserted and loaded values carry the
   * clock they are created with, all keys score the same under the LRU policies, and under the LFU policies.
   */
  method RunFromEmpty(count: nat, ops: seq<(nat, Op)>) returns (ds: DS.DataState)
    requires forall i :: 0 <= i < |ops| ==> InBounds(ops[i].1, ops[i].0, count) && BringsUntouched(ops[i].1)
    ensures fresh(ds) && ds.Valid() && |ds.shards| == count && EV.Untouched(ds.shards)
    ensures forall i, k :: 0 <= i < count && k in ds.shards[i].data ==>
      && EV.EvictionScore(ds.shards[i].data[k], EV.AllKeysLru) == EV.LRU_CLOCK_MAX
      && EV.EvictionScore(ds.shards[i].data[k], EV.VolatileLru) == EV.LRU_CLOCK_MAX
      && EV.EvictionScore(ds.shards[i].data[k], EV.AllKeysLfu) == EV.U64_MAX
      && EV.EvictionScore(ds.shards[i].data[k], EV.VolatileLfu) == EV.U64_MAX
  {
    hide Ok, EV.EvictionScore, BringsUntouched;
    ds := new DS.DataState(count);
    ghost var states, events := RunAll(ds, ops);
    forall i, k, policy | 0 <= i < count && k in ds.shards[i].data
      ensures policy == EV.AllKeysLru || policy == EV.VolatileLru ==>
        EV.EvictionScore(ds.shards[i].data[k], policy) == EV.LRU_CLOCK_MAX
      ensures policy == EV.AllKeysLfu || policy == EV.VolatileLfu ==>
        EV.EvictionScore(ds.shards[i].data[k], policy) == EV.U64_MAX
    {
      EV.UntouchedScoresTie(ds.shards, policy, i, k);
    }
  }

  lemma OkTables(s: Store)
    requires Ok(s)
    ensures TablesOk(s)
  {
    forall i | 0 <= i < |s.shards| ensures WatchOk(s.shards[i], s.nextVersion) {
      assert ShardOk(s.shards[i], s.memory[i], s.nextVersion);
    }
  }

  // ---- from WATCH to EXEC ---------------------------------------------------

  /** Registrations minus releases of one key among some operations. */
  ghost function Registered(ops: seq<(nat, Op)>, db: nat, key: Key): int {
    if ops == [] then 0
    else
      var (at, op) := ops[|ops| - 1];
      Registered(ops[..|ops| - 1], db, key)
      + (if at == db && op == DoWatch(key) then 1 else if at == db && op == DoUnwatch(key) then -1 else 0)
  }

  /** At no point have more registrations of the key been released than were added. */
  ghost predicate NeverOverReleased(ops: seq<(nat, Op)>, db: nat, key: Key) {
    forall n :: 0 <= n <= |ops| ==> Registered(ops[..n], db, key) >= 0
  }

  ghost predicate Explained(ops: seq<(nat, Op)>, states: seq<Store>, events: seq<Event>) {
    && IsRun(states, events) && |events| == |ops|
    && forall i :: 0 <= i < |ops| ==> Explains(ops[i].0, ops[i].1, states[i], events[i], states[i + 1])
  }

  lemma {:induction false} BalanceIsRegistered(ops: seq<(nat, Op)>, states: seq<Store>, events: seq<Event>, db: nat,
      key: Key, n: nat)
    requires Explained(ops, states, events) && n <= |ops|
    ensures Balance(events[..n], db, key) == Registered(ops[..n], db, key)
  {
    hide WatchStep, ChangesRecorded;
    if n > 0 {
      BalanceIsRegistered(ops, states, events, db, key, n - 1);
      assert events[..n][..n - 1] == events[..n - 1] && ops[..n][..n - 1] == ops[..n - 1];
      assert Explains(ops[n - 1].0, ops[n - 1].1, states[n - 1], events[n - 1], states[n]);
    }
  }

  lemma WatchAdds(s: Store, db: nat, key: Key, t: Store)
    requires WatchStep(s, Watch(db, key), t) && db < |s.shards|
    ensures |t.shards| == |s.shards| && Refs(t, db, key) >= 1 && Version(t, db, key) == Version(s, db, key)
  {
    assert SameTables(t.shards[db], AddRef(s.shards[db], key));
  }

  /** A registration that the operations do not release is held over their run. */
  lemma RunHolds(ops: seq<(nat, Op)>, states: seq<Store>, events: seq<Event>, db: nat, key: Key)
    requires Explained(ops, states, events) && NeverOverReleased(ops, db, key)
    requires db < |states[0].shards| && Refs(states[0], db, key) >= 1
    ensures Held(states, events, db, key)
  {
    hide WatchStep, Explains;
    forall n | 0 <= n <= |events| ensures Refs(states[0], db, key) + Balance(events[..n], db, key) >= 1 {
      BalanceIsRegistered(ops, states, events, db, key, n);
    }
  }

  /** The key maps to the same value, or to none, in both states. */
  ghost predicate SameValue(s: Store, t: Store, db: nat, key: Key)
    requires db < |s.shards| && db < |t.shards|
  {
    && (key in s.shards[db].data <==> key in t.shards[db].data)
    && (key in s.shards[db].data ==> s.shards[db].data[key] == t.shards[db].data[key])
  }

  /** A watched key that a background operation gave another value is among those it recorded. */
  lemma ChangeIsRecorded(s: Store, recorded: set<(nat, Key)>, t: Store, db: nat, key: Key)
    requires ChangesRecorded(s, recorded, t) && |t.shards| == |s.shards| && db < |s.shards|
    requires Refs(s, db, key) >= 1 && !SameValue(s, t, db, key)
    ensures (db, key) in recorded
  {
  }

  /**
   * WATCH, any operations of any clients that leave the registration in place, EXEC: the version is still the
   * one WATCH returned exactly when no operation recorded the key. In that case nobody touched the key, and no
   * expiry, eviction, lazy delete, flush, swap or load changed what it maps to.
   */
  method WatchThenRun(ds: DS.DataState, db: nat, key: Key, ops: seq<(nat, Op)>)
      returns (version: nat, ghost states: seq<Store>, ghost events: seq<Event>)
    requires ds.Valid() && db < |ds.shards| && NeverOverReleased(ops, db, key)
    requires forall i :: 0 <= i < |ops| ==> InBounds(ops[i].1, ops[i].0, |ds.shards|)
    modifies ds
    ensures ds.Valid() && |ds.shards| == |old(ds.shards)| && version == Version(old(ds.State()), db, key)
    ensures Explained(ops, states, events) && states[|ops|] == ds.State()
    ensures |states[0].shards| == |old(ds.shards)|
    ensures forall i :: 0 <= i < |states[0].shards| ==> states[0].shards[i].data == old(ds.shards)[i].data
    ensures Version(ds.State(), db, key) == version <==> forall i :: 0 <= i < |ops| ==> !Records(events[i], db, key)
    ensures Version(ds.State(), db, key) == version ==>
      forall i :: 0 <= i < |ops| ==>
        ops[i] != (db, DoTouch(key)) && Undisturbed(ops[i].1, states[i], states[i + 1], db, key)
  {
    hide Ok, WatchStep, Version, Refs, Explains;
    version := ds.WatchKey(db, key);
    WatchAdds(old(ds.State()), db, key, ds.State());
    assert version == Version(old(ds.State()), db, key) by { VersionIs(old(ds.State()), db, key); }
    states, events := RunAll(ds, ops);
    RunHolds(ops, states, events, db, key);
    WatchSafety(states, events, db, key);
    if Version(ds.State(), db, key) == version {
      forall i | 0 <= i < |ops|
        ensures ops[i] != (db, DoTouch(key)) && Undisturbed(ops[i].1, states[i], states[i + 1], db, key)
      {
        StepUndisturbed(ops, states, events, db, key, i);
      }
    }
  }

  /** A background operation left the key's value alone. */
  ghost predicate Undisturbed(op: Op, s: Store, t: Store, db: nat, key: Key) {
    db < |s.shards| && db < |t.shards| && (ReplacesBehind(op) ==> SameValue(s, t, db, key))
  }

  lemma VersionIs(s: Store, db: nat, key: Key)
    requires db < |s.shards|
    ensures Version(s, db, key) == if key in s.shards[db].keyVersions then s.shards[db].keyVersions[key] else 0
  {
  }

  lemma StepUndisturbed(ops: seq<(nat, Op)>, states: seq<Store>, events: seq<Event>, db: nat, key: Key, i: nat)
    requires Explained(ops, states, events) && Held(states, events, db, key) && TablesOk(states[0])
    requires i < |ops| && !Records(events[i], db, key)
    ensures ops[i] != (db, DoTouch(key)) && Undisturbed(ops[i].1, states[i], states[i + 1], db, key)
  {
    hide WatchStep, ChangesRecorded, Refs, SameValue;
    RunFacts(states, events, db, key, i);
    assert Refs(states[0], db, key) + Balance(events[..i], db, key) >= 1;
    assert WatchStep(states[i], events[i], states[i + 1]);
    SameShardCount(states[i], events[i], states[i + 1]);
    assert Explains(ops[i].0, ops[i].1, states[i], events[i], states[i + 1]);
    if ReplacesBehind(ops[i].1) && !SameValue(states[i], states[i + 1], db, key) {
      ChangeIsRecorded(states[i], events[i].recorded, states[i + 1], db, key);
    }
  }
}
