/** Eviction under a memory limit and the active expiry cycle, over the tracked store. */
module Eviction {
  import opened Base
  import opened Values
  import opened Keyspace
  import opened Sampling
  import DS = DataState

  datatype Policy =
    | NoEviction | AllKeysLru | VolatileLru | AllKeysLfu | VolatileLfu | AllKeysRandom | VolatileRandom | VolatileTtl

  predicate IsVolatile(p: Policy) {
    p.VolatileLru? || p.VolatileLfu? || p.VolatileRandom? || p.VolatileTtl?
  }

  const LRU_CLOCK_MAX: nat := 0xFF_FFFF
  const U64_MAX: nat := 0xFFFF_FFFF_FFFF_FFFF

  /** Higher means more eligible. The clock is subtracted in wrapping 32-bit arithmetic. */
  function EvictionScore(value: Stored, policy: Policy): nat {
    match policy
    case NoEviction => 0
    case AllKeysLru => (LRU_CLOCK_MAX - value.lru) % 0x1_0000_0000
    case VolatileLru => (LRU_CLOCK_MAX - value.lru) % 0x1_0000_0000
    case AllKeysLfu => if value.lru <= U64_MAX then U64_MAX - value.lru else 0
    case VolatileLfu => if value.lru <= U64_MAX then U64_MAX - value.lru else 0
    case AllKeysRandom => 1
    case VolatileRandom => 1
    case VolatileTtl =>
      match value.Deadline()
      case Some(at) => if at <= U64_MAX then U64_MAX - at else 0
      case None => 0
  }

  /** The clock of a second: its low 24 bits. */
  function LruClock(second: nat): nat {
    second % 0x100_0000
  }

  function Touched(value: Stored, second: nat): Stored {
    value.(lru := LruClock(second))
  }

  /** Of two keys, the one touched earlier is preferred for eviction exactly when its clock is the lower one. */
  lemma LruPrefersOlderIff(older: Stored, earlier: nat, newer: Stored, later: nat, policy: Policy)
    requires earlier < later < 0x1_0000_0000 && (policy == AllKeysLru || policy == VolatileLru)
    ensures EvictionScore(Touched(older, earlier), policy) > EvictionScore(Touched(newer, later), policy)
       <==> earlier % 0x100_0000 < later % 0x100_0000
  {
  }

  /** Across a wrap of the 24-bit clock the key touched a second later goes first. */
  lemma LruWrapPrefersNewer(older: Stored, newer: Stored)
    ensures EvictionScore(Touched(older, 0xFF_FFFF), AllKeysLru) == 0
    ensures EvictionScore(Touched(newer, 0x100_0000), AllKeysLru) == LRU_CLOCK_MAX
  {
  }

  /** No stored value was ever touched: every clock is still the zero it was created with. */
  ghost predicate Untouched(shards: seq<Shard>) {
    forall i :: 0 <= i < |shards| ==> UntouchedIn(shards[i].data)
  }

  ghost predicate UntouchedIn(data: map<Key, Stored>) {
    forall k :: k in data ==> data[k].lru == 0
  }

  /** Then the LRU and LFU policies cannot tell keys apart. */
  lemma UntouchedScoresTie(shards: seq<Shard>, policy: Policy, i: nat, k: Key)
    requires Untouched(shards) && i < |shards| && k in shards[i].data
    ensures policy == AllKeysLru || policy == VolatileLru ==>
      EvictionScore(shards[i].data[k], policy) == LRU_CLOCK_MAX
    ensures policy == AllKeysLfu || policy == VolatileLfu ==> EvictionScore(shards[i].data[k], policy) == U64_MAX
  {
    assert UntouchedIn(shards[i].data);
  }

  predicate Eligible(value: Stored, policy: Policy) {
    IsVolatile(policy) ==> value.Deadline().Some?
  }

  /** The candidates of one database: all keys, or those in the deadline index. */
  function Candidates(sh: Shard, policy: Policy): set<Key> {
    if IsVolatile(policy) then sh.expires.Keys else sh.data.Keys
  }

  lemma CandidatesAreEligible(s: Store, db: nat, policy: Policy)
    requires Ok(s) && db < |s.shards|
    ensures forall k :: k in Candidates(s.shards[db], policy)
                   <==> k in s.shards[db].data && Eligible(s.shards[db].data[k], policy)
  {
    hide Footprint;
    OkShard(s, db);
  }

  ghost predicate AnyEligible(s: Store, policy: Policy) {
    exists db, k :: 0 <= db < |s.shards| && k in s.shards[db].data && Eligible(s.shards[db].data[k], policy)
  }

  ghost predicate ScoresAtMost(sh: Shard, policy: Policy, score: nat) {
    forall k :: k in Candidates(sh, policy) && k in sh.data ==> EvictionScore(sh.data[k], policy) <= score
  }

  /** The deadline index and the data agree about which keys a policy may evict. */
  ghost predicate IndexSound(shards: seq<Shard>, policy: Policy) {
    forall db :: 0 <= db < |shards| ==> CandidatesSound(shards[db], policy)
  }

  ghost predicate CandidatesSound(sh: Shard, policy: Policy) {
    forall k :: k in Candidates(sh, policy) <==> k in sh.data && Eligible(sh.data[k], policy)
  }

  /** Samples one database and keeps its best key. */
  method BestIn(sh: Shard, policy: Policy, samples: nat) returns (best: Option<Key>, score: nat)
    requires CandidatesSound(sh, policy)
    ensures best.Some? ==> best.value in Candidates(sh, policy) && score == EvictionScore(sh.data[best.value], policy)
    ensures best.None? ==> score == 0
    ensures best.None? && samples >= 1 ==> Candidates(sh, policy) == {}
    ensures |Candidates(sh, policy)| <= samples ==> ScoresAtMost(sh, policy, score)
  {
    hide EvictionScore, Eligible, Candidates;
    var sampled := SampleKeys(Candidates(sh, policy), samples);
    best, score := BestSampled(sh, policy, sampled);
    if best.None? && samples >= 1 { assert |Candidates(sh, policy)| == 0; }
  }

  /** The best of the sampled candidates of all databases. */
  method BestOfAll(shards: seq<Shard>, policy: Policy, samples: nat) returns (best: Option<(nat, Key)>)
    requires IndexSound(shards, policy)
    ensures best.Some? ==> best.value.0 < |shards| && best.value.1 in Candidates(shards[best.value.0], policy)
    ensures best.None? && samples >= 1 ==> forall db :: 0 <= db < |shards| ==> Candidates(shards[db], policy) == {}
    ensures best.Some? && SamplesCover(shards, policy, samples) ==>
      forall db :: 0 <= db < |shards| ==>
        ScoresAtMost(shards[db], policy, EvictionScore(shards[best.value.0].data[best.value.1], policy))
  {
    hide EvictionScore, Eligible, Candidates, ScoresAtMost;
    best := None;
    var bestScore := 0;
    for db := 0 to |shards|
      invariant best.Some? ==> best.value.0 < |shards| && best.value.1 in Candidates(shards[best.value.0], policy)
      invariant best.Some? ==> bestScore == EvictionScore(shards[best.value.0].data[best.value.1], policy)
      invariant best.None? ==> bestScore == 0
      invariant best.None? && samples >= 1 ==> forall i :: 0 <= i < db ==> Candidates(shards[i], policy) == {}
      invariant SamplesCover(shards, policy, samples) ==> forall i :: 0 <= i < db ==>
        ScoresAtMost(shards[i], policy, bestScore)
    {
      assert CandidatesSound(shards[db], policy);
      var key, score := BestIn(shards[db], policy, samples);
      if key.Some? && (best.None? || score > bestScore) {
        forall i | 0 <= i < |shards| && ScoresAtMost(shards[i], policy, bestScore)
          ensures ScoresAtMost(shards[i], policy, score)
        {
          ScoresGrow(shards[i], policy, bestScore, score);
        }
        best := Some((db, key.value));
        bestScore := score;
      } else if score <= bestScore && ScoresAtMost(shards[db], policy, score) {
        ScoresGrow(shards[db], policy, score, bestScore);
      }
    }
  }

  ghost predicate SamplesCover(shards: seq<Shard>, policy: Policy, samples: nat) {
    forall db :: 0 <= db < |shards| ==> |Candidates(shards[db], policy)| <= samples
  }

  lemma ScoresGrow(sh: Shard, policy: Policy, a: nat, b: nat)
    requires ScoresAtMost(sh, policy, a) && a <= b
    ensures ScoresAtMost(sh, policy, b)
  {
    hide EvictionScore, Candidates;
  }

  /**
   * With at least one sample a key is found whenever one is eligible, and with
   * samples covering every database nothing eligible scores higher.
   */
  method SelectCandidate(ds: DS.DataState, policy: Policy, samples: nat) returns (best: Option<(nat, Key)>)
    requires ds.Valid()
    ensures best.Some? ==> best.value.0 < |ds.shards| && best.value.1 in ds.shards[best.value.0].data
    ensures best.Some? ==> Eligible(ds.shards[best.value.0].data[best.value.1], policy)
    ensures best.None? && samples >= 1 ==> !AnyEligible(ds.State(), policy)
    ensures best.Some? && SamplesCover(ds.shards, policy, samples) ==>
      forall db :: 0 <= db < |ds.shards| ==>
        ScoresAtMost(ds.shards[db], policy, EvictionScore(ds.shards[best.value.0].data[best.value.1], policy))
  {
    hide Ok, EvictionScore, Candidates, ScoresAtMost, Eligible;
    forall db | 0 <= db < |ds.shards| ensures CandidatesSound(ds.shards[db], policy) {
      CandidatesAreEligible(ds.State(), db, policy);
    }
    best := BestOfAll(ds.shards, policy, samples);
    assert best.Some? ==> CandidatesSound(ds.shards[best.value.0], policy);
    if best.None? && samples >= 1 {
      forall db, k | 0 <= db < |ds.shards| && k in ds.shards[db].data ensures !Eligible(ds.shards[db].data[k], policy) {
        assert CandidatesSound(ds.shards[db], policy) && Candidates(ds.shards[db], policy) == {};
      }
    }
  }

  /** The highest-scoring sampled key of one database. */
  method BestSampled(sh: Shard, policy: Policy, sampled: seq<Key>) returns (best: Option<Key>, score: nat)
    requires forall i :: 0 <= i < |sampled| ==> sampled[i] in sh.data
    ensures best.None? <==> sampled == []
    ensures best.Some? ==> best.value in sampled && score == EvictionScore(sh.data[best.value], policy)
    ensures best.None? ==> score == 0
    ensures forall k :: k in sampled ==> EvictionScore(sh.data[k], policy) <= score
  {
    hide EvictionScore;
    best, score := None, 0;
    for i := 0 to |sampled|
      invariant best.None? <==> i == 0
      invariant best.Some? ==> best.value in sampled && score == EvictionScore(sh.data[best.value], policy)
      invariant best.None? ==> score == 0
      invariant forall j :: 0 <= j < i ==> EvictionScore(sh.data[sampled[j]], policy) <= score
    {
      var s := EvictionScore(sh.data[sampled[i]], policy);
      if best.None? || s > score {
        best, score := Some(sampled[i]), s;
      }
    }
  }

  // ---- removal runs ---------------------------------------------------------

  ghost function KeyCount(shards: seq<Shard>): nat {
    if shards == [] then 0 else |shards[0].data| + KeyCount(shards[1..])
  }

  lemma {:induction false} KeyCountBut(a: seq<Shard>, b: seq<Shard>, db: nat)
    requires |a| == |b| && db < |a| && forall i :: 0 <= i < |a| && i != db ==> b[i].data == a[i].data
    ensures KeyCount(b) + |a[db].data| == KeyCount(a) + |b[db].data|
  {
    if db == 0 { KeyCountSame(a[1..], b[1..]); } else { KeyCountBut(a[1..], b[1..], db - 1); }
  }

  lemma KeyCountLess(a: seq<Shard>, db: nat, key: Key, b: seq<Shard>)
    requires |a| == |b| && db < |a| && key in a[db].data && b[db].data == a[db].data - {key}
    requires forall i :: 0 <= i < |a| && i != db ==> b[i].data == a[i].data
    ensures KeyCount(b) + 1 == KeyCount(a)
  {
    assert a[db].data == b[db].data[key := a[db].data[key]];
    KeyCountBut(a, b, db);
  }

  lemma {:induction false} KeyCountSame(a: seq<Shard>, b: seq<Shard>)
    requires |a| == |b| && forall i :: 0 <= i < |a| ==> b[i].data == a[i].data
    ensures KeyCount(a) == KeyCount(b)
  {
    if a != [] { KeyCountSame(a[1..], b[1..]); }
  }

  /** Nothing but removals: every remaining key maps to what it mapped to. */
  ghost predicate Shrunk(a: seq<Shard>, b: seq<Shard>) {
    |a| == |b|
    && forall i, k :: 0 <= i < |a| && k in b[i].data ==> k in a[i].data && b[i].data[k] == a[i].data[k]
  }

  /** Keys that a removal run was not allowed to touch are all still there. */
  ghost predicate Spared(a: seq<Shard>, b: seq<Shard>, p: Stored -> bool) {
    |a| == |b|
    && forall i, k :: 0 <= i < |a| && k in a[i].data && p(a[i].data[k]) ==> k in b[i].data
  }

  ghost predicate OneRemoved(a: seq<Shard>, db: nat, key: Key, b: seq<Shard>) {
    && |a| == |b| && db < |a| && key in a[db].data && b[db].data == a[db].data - {key}
    && forall i :: 0 <= i < |a| && i != db ==> b[i].data == a[i].data
  }

  /** `gone` is exactly the keys that were removed. */
  ghost predicate Removals(a: seq<Shard>, b: seq<Shard>, gone: set<(nat, Key)>) {
    |a| == |b|
    && forall i, k :: (i, k) in gone <==> 0 <= i < |a| && k in a[i].data && k !in b[i].data
  }

  lemma RemovalExtends(a: seq<Shard>, b: seq<Shard>, db: nat, key: Key, c: seq<Shard>, p: Stored -> bool)
    requires Shrunk(a, b) && Spared(a, b, p) && OneRemoved(b, db, key, c) && !p(b[db].data[key])
    ensures Shrunk(a, c) && Spared(a, c, p) && KeyCount(c) + 1 == KeyCount(b)
  {
    KeyCountLess(b, db, key, c);
  }

  lemma RemovalsExtend(a: seq<Shard>, b: seq<Shard>, gone: set<(nat, Key)>, db: nat, key: Key, c: seq<Shard>)
    requires Shrunk(a, b) && Removals(a, b, gone) && OneRemoved(b, db, key, c)
    ensures Removals(a, c, gone + {(db, key)})
  {
    forall i, k
      ensures (i, k) in gone + {(db, key)} <==> 0 <= i < |a| && k in a[i].data && k !in c[i].data
    {
      if 0 <= i < |a| && i != db { assert c[i].data == b[i].data; }
    }
  }

  lemma NothingRemoved(a: seq<Shard>)
    ensures Shrunk(a, a) && Removals(a, a, {})
  {
  }

  /** Removes one key with its accounting and records it. */
  method Drop(ds: DS.DataState, db: nat, key: Key)
    requires ds.Valid() && db < |ds.shards| && key in ds.shards[db].data
    modifies ds
    ensures ds.Valid() && OneRemoved(old(ds.shards), db, key, ds.shards)
    ensures DS.SumAll(ds.memory) + Estimate(key, old(ds.shards)[db].data[key]) == DS.SumAll(old(ds.memory))
    ensures DS.Recorded(old(ds.State()), {(db, key)}, ds.State())
  {
    hide Ok, Estimate, WatchStep, DS.Recorded;
    ghost var s := ds.State();
    OkShard(s, db);
    var taken := ds.TakeWithEstimate(db, key);
    ghost var t := ds.State();
    DS.SumAllUpdate(s.memory, db, t.memory[db]);
    assert t.memory == s.memory[db := t.memory[db]];
    ds.TouchKeyVersion(db, key);
    DS.DataState.RemovalRecorded(s, db, key, t, ds.State());
  }

  const MAX_ROUNDS: nat := 128

  /**
   * Each eviction frees at least 88 bytes; the run ends under the limit, after 128
   * evictions, or with nothing eligible left, and never touches an ineligible key. Exactly the evicted keys
   * are recorded for WATCH.
   */
  method PerformEviction(ds: DS.DataState, policy: Policy, maxmemory: nat, samples: nat)
      returns (evicted: nat, ghost recorded: set<(nat, Key)>)
    requires ds.Valid()
    modifies ds
    ensures ds.Valid() && evicted <= MAX_ROUNDS
    ensures policy == NoEviction || maxmemory == 0 ==> evicted == 0 && ds.State() == old(ds.State())
    ensures policy != NoEviction && maxmemory > 0 && samples >= 1 ==>
      DS.SumAll(ds.memory) <= maxmemory || evicted == MAX_ROUNDS || !AnyEligible(ds.State(), policy)
    ensures DS.SumAll(ds.memory) + 88 * evicted <= DS.SumAll(old(ds.memory))
    ensures KeyCount(ds.shards) + evicted == KeyCount(old(ds.shards))
    ensures Shrunk(old(ds.shards), ds.shards) && Spared(old(ds.shards), ds.shards, (v: Stored) => !Eligible(v, policy))
    ensures DS.Recorded(old(ds.State()), recorded, ds.State()) && Removals(old(ds.shards), ds.shards, recorded)
  {
    hide Ok, AnyEligible, Eligible, KeyCount, DS.SumAll, DS.Recorded, Removals;
    evicted, recorded := 0, {};
    DS.DataState.RecordedStart(ds.State());
    NothingRemoved(ds.shards);
    if policy == NoEviction || maxmemory == 0 { return; }
    while evicted < MAX_ROUNDS
      invariant Ok(ds.State()) && evicted <= MAX_ROUNDS
      invariant DS.SumAll(ds.memory) + 88 * evicted <= DS.SumAll(old(ds.memory))
      invariant KeyCount(ds.shards) + evicted == KeyCount(old(ds.shards))
      invariant Shrunk(old(ds.shards), ds.shards)
      invariant Spared(old(ds.shards), ds.shards, (v: Stored) => !Eligible(v, policy))
      invariant DS.Recorded(old(ds.State()), recorded, ds.State()) && Removals(old(ds.shards), ds.shards, recorded)
    {
      var used := UsedMemory(ds);
      if used <= maxmemory { return; }
      var best := SelectCandidate(ds, policy, samples);
      if best.None? { return; }
      var (db, key) := best.value;
      ghost var before := ds.State();
      Drop(ds, db, key);
      RemovalExtends(old(ds.shards), before.shards, db, key, ds.shards, (v: Stored) => !Eligible(v, policy));
      RemovalsExtend(old(ds.shards), before.shards, recorded, db, key, ds.shards);
      DS.RecordedCompose(old(ds.State()), recorded, before, {(db, key)}, ds.State());
      evicted, recorded := evicted + 1, recorded + {(db, key)};
    }
  }

  method UsedMemory(ds: DS.DataState) returns (total: nat)
    ensures total == DS.SumAll(ds.memory)
  {
    total := 0;
    for i := 0 to |ds.memory|
      invariant total == DS.SumAll(ds.memory[..i])
    {
      assert ds.memory[..i + 1] == ds.memory[..i] + [ds.memory[i]];
      DS.SumAllPush(ds.memory[..i], ds.memory[i]);
      total := total + ds.memory[i];
    }
    assert ds.memory[..|ds.memory|] == ds.memory;
  }

  // ---- active expiry --------------------------------------------------------

  function Live(data: map<Key, Stored>, now: int): map<Key, Stored> {
    data - DS.DataState.Expired(data, now)
  }

  function Contents(shards: seq<Shard>): seq<map<Key, Stored>> {
    if shards == [] then [] else [shards[0].data] + Contents(shards[1..])
  }

  /** The contents when every database is rid of its expired keys. */
  function AllLive(shards: seq<Shard>, now: int): seq<map<Key, Stored>> {
    if shards == [] then [] else [Live(shards[0].data, now)] + AllLive(shards[1..], now)
  }

  /** The test behind a database whose deadline index was sampled in full. */
  predicate FewExpired(expired: nat, sampled: nat, thresholdPct: nat) {
    sampled > 0 && (expired as real) / (sampled as real) < (thresholdPct as real) / 100.0
  }

  predicate BelowThreshold(sh: Shard, thresholdPct: nat, now: int) {
    FewExpired(|DS.DataState.Expired(sh.data, now)|, |sh.expires|, thresholdPct)
  }

  /** The documented cycle: it stops behind the first database below the threshold. */
  function StoppingEarly(shards: seq<Shard>, thresholdPct: nat, now: int): seq<map<Key, Stored>> {
    if shards == [] then []
    else
      [Live(shards[0].data, now)]
      + if BelowThreshold(shards[0], thresholdPct, now) then Contents(shards[1..])
        else StoppingEarly(shards[1..], thresholdPct, now)
  }

  /** No database behind one below the threshold holds an expired key. */
  ghost predicate NothingLater(shards: seq<Shard>, thresholdPct: nat, now: int) {
    forall i, j :: 0 <= j < i < |shards| && BelowThreshold(shards[j], thresholdPct, now) ==> Fresh(shards[i], now)
  }

  /**
   * The cycle goes through every database. The documented early stop would leave the same keys exactly when no
   * database behind one below the threshold holds an expired key.
   */
  lemma {:induction false} EarlyStopIff(shards: seq<Shard>, thresholdPct: nat, now: int)
    ensures StoppingEarly(shards, thresholdPct, now) == AllLive(shards, now) <==>
      NothingLater(shards, thresholdPct, now)
  {
    if shards != [] {
      hide Live, BelowThreshold, Fresh, NothingLater;
      var rest := shards[1..];
      assert StoppingEarly(shards, thresholdPct, now)[1..] ==
        if BelowThreshold(shards[0], thresholdPct, now) then Contents(rest) else StoppingEarly(rest, thresholdPct, now);
      assert AllLive(shards, now)[1..] == AllLive(rest, now);
      EarlyStopIff(rest, thresholdPct, now);
      NothingExpired(rest, now);
      NothingLaterStep(shards, thresholdPct, now);
    }
  }

  lemma NothingLaterStep(shards: seq<Shard>, thresholdPct: nat, now: int)
    requires shards != []
    ensures NothingLater(shards, thresholdPct, now) <==>
      && NothingLater(shards[1..], thresholdPct, now)
      && (BelowThreshold(shards[0], thresholdPct, now) ==>
            forall i :: 0 <= i < |shards[1..]| ==> Fresh(shards[1..][i], now))
    ensures (forall i :: 0 <= i < |shards[1..]| ==> Fresh(shards[1..][i], now)) ==>
      NothingLater(shards[1..], thresholdPct, now)
  {
    hide BelowThreshold, Fresh;
    var rest := shards[1..];
    assert forall i :: 0 <= i < |rest| ==> rest[i] == shards[i + 1];
    assert forall i :: 0 < i < |shards| ==> shards[i] == rest[i - 1];
  }

  lemma {:induction false} NothingExpired(shards: seq<Shard>, now: int)
    ensures Contents(shards) == AllLive(shards, now) <==> forall i :: 0 <= i < |shards| ==> Fresh(shards[i], now)
  {
    if shards != [] {
      var rest := shards[1..];
      LiveIffFresh(shards[0], now);
      NothingExpired(rest, now);
      hide Live, Fresh;
      assert Contents(shards)[1..] == Contents(rest) && AllLive(shards, now)[1..] == AllLive(rest, now);
      assert forall i :: 0 < i < |shards| ==> shards[i] == rest[i - 1];
      assert forall i :: 0 <= i < |rest| ==> rest[i] == shards[i + 1];
    }
  }

  lemma LiveIffFresh(sh: Shard, now: int)
    ensures Live(sh.data, now) == sh.data <==> Fresh(sh, now)
  {
    if exists k :: k in sh.data && sh.data[k].ExpiredAt(now) {
      var k :| k in sh.data && sh.data[k].ExpiredAt(now);
      assert k !in Live(sh.data, now);
    }
  }

  lemma LiveOfOne(key: Key, value: Stored, now: int)
    ensures DS.DataState.Expired(map[key := value], now) == if value.ExpiredAt(now) then {key} else {}
    ensures Live(map[key := value], now) == if value.ExpiredAt(now) then map[] else map[key := value]
  {
    var data := map[key := value];
    assert forall k :: k in DS.DataState.Expired(data, now) <==> k == key && value.ExpiredAt(now);
  }

  /** The input that shows it: a stop behind the first database would leave the expired key of the second. */
  lemma EarlyStopIsIgnored(key: Key, bytes: Bytes)
    ensures var live, dead := Stored(String(bytes), 20, RawEncoding, 0), Stored(String(bytes), 5, RawEncoding, 0);
      var shards := [Shard(map[key := live], map[key := 20], map[], map[]),
                     Shard(map[key := dead], map[key := 5], map[], map[])];
      && LookupsCover(shards, 1)
      && AllLive(shards, 10) == [map[key := live], map[]]
      && StoppingEarly(shards, 25, 10) == [map[key := live], map[key := dead]]
  {
    var live, dead := Stored(String(bytes), 20, RawEncoding, 0), Stored(String(bytes), 5, RawEncoding, 0);
    var first, second := Shard(map[key := live], map[key := 20], map[], map[]),
                         Shard(map[key := dead], map[key := 5], map[], map[]);
    LiveOfOne(key, live, 10);
    LiveOfOne(key, dead, 10);
    assert BelowThreshold(first, 25, 10);
    hide Live, BelowThreshold;
    assert [first, second][1..] == [second] && [second][1..] == [];
    assert AllLive([second], 10) == [map[]] && Contents([second]) == [second.data];
  }

  /** No key of a database is expired. */
  ghost predicate Fresh(sh: Shard, now: int) {
    forall k :: k in sh.data ==> !sh.data[k].ExpiredAt(now)
  }

  /** Every database's deadline index is at most `lookups` long. */
  ghost predicate LookupsCover(shards: seq<Shard>, lookups: nat) {
    forall i :: 0 <= i < |shards| ==> |shards[i].expires| <= lookups
  }

  /**
   * One cycle over all databases: removes only expired keys, all of them when the lookups cover every deadline
   * index, counts exactly what it removed and records exactly those keys for WATCH, whatever the threshold.
   */
  method ActiveExpireCycle(ds: DS.DataState, lookups: nat, thresholdPct: nat, now: int)
      returns (total: nat, ghost recorded: set<(nat, Key)>)
    requires ds.Valid()
    modifies ds
    ensures ds.Valid() && KeyCount(ds.shards) + total == KeyCount(old(ds.shards))
    ensures Shrunk(old(ds.shards), ds.shards) && Spared(old(ds.shards), ds.shards, (v: Stored) => !v.ExpiredAt(now))
    ensures DS.Recorded(old(ds.State()), recorded, ds.State()) && Removals(old(ds.shards), ds.shards, recorded)
    ensures LookupsCover(old(ds.shards), lookups) ==> Contents(ds.shards) == AllLive(old(ds.shards), now)
  {
    hide Ok, KeyCount, DS.Recorded, Removals, Shrunk, Spared, Fresh, FewExpired, Contents, AllLive;
    ghost var start := ds.State();
    total, recorded := 0, {};
    DS.DataState.RecordedStart(start);
    NothingRemoved(ds.shards);
    SparedAll(ds.shards, now);
    for db := 0 to |ds.shards|
      invariant Ok(ds.State()) && |ds.shards| == |start.shards|
      invariant KeyCount(ds.shards) + total == KeyCount(start.shards)
      invariant Shrunk(start.shards, ds.shards) && Spared(start.shards, ds.shards, (v: Stored) => !v.ExpiredAt(now))
      invariant DS.Recorded(start, recorded, ds.State()) && Removals(start.shards, ds.shards, recorded)
      invariant forall i :: db <= i < |ds.shards| ==> ds.shards[i].data == start.shards[i].data
      invariant LookupsCover(start.shards, lookups) ==> forall i :: 0 <= i < db ==> Fresh(ds.shards[i], now)
    {
      ghost var before := ds.State();
      SameIndex(start, before, db);
      var expired, sampled, gone := ExpireIn(ds, db, lookups, now);
      RunCompose(start.shards, before.shards, ds.shards, recorded, gone, (v: Stored) => !v.ExpiredAt(now));
      DS.RecordedCompose(start, recorded, before, gone, ds.State());
      StayFresh(before.shards, ds.shards, db, now);
      total, recorded := total + expired, recorded + gone;
      if FewExpired(expired, sampled, thresholdPct) { continue; }
    }
    if LookupsCover(start.shards, lookups) { OnlyLiveLeft(start.shards, ds.shards, now); }
  }

  lemma {:induction false} OnlyLiveLeft(a: seq<Shard>, b: seq<Shard>, now: int)
    requires Shrunk(a, b) && Spared(a, b, (v: Stored) => !v.ExpiredAt(now))
    requires forall i :: 0 <= i < |b| ==> Fresh(b[i], now)
    ensures Contents(b) == AllLive(a, now)
    decreases |a|
  {
    if a != [] {
      assert b[0].data == Live(a[0].data, now);
      TailShrunk(a, b, now);
      OnlyLiveLeft(a[1..], b[1..], now);
    }
  }

  lemma TailShrunk(a: seq<Shard>, b: seq<Shard>, now: int)
    requires a != [] && Shrunk(a, b) && Spared(a, b, (v: Stored) => !v.ExpiredAt(now))
    ensures Shrunk(a[1..], b[1..]) && Spared(a[1..], b[1..], (v: Stored) => !v.ExpiredAt(now))
  {
    assert forall i :: 0 <= i < |a[1..]| ==> a[1..][i] == a[i + 1] && b[1..][i] == b[i + 1];
  }

  lemma SameIndex(s: Store, t: Store, db: nat)
    requires Ok(s) && Ok(t) && db < |s.shards| && db < |t.shards| && s.shards[db].data == t.shards[db].data
    ensures s.shards[db].expires == t.shards[db].expires
  {
    hide Ok, Footprint, Deadlines;
    OkShard(s, db);
    OkShard(t, db);
  }

  lemma StayFresh(a: seq<Shard>, b: seq<Shard>, db: nat, now: int)
    requires |a| == |b| && forall i :: 0 <= i < |a| && i != db ==> b[i].data == a[i].data
    ensures forall i :: 0 <= i < |a| && i != db && Fresh(a[i], now) ==> Fresh(b[i], now)
  {
  }

  /** Two removal runs in a row are one. */
  lemma RunCompose(a: seq<Shard>, b: seq<Shard>, c: seq<Shard>, first: set<(nat, Key)>, second: set<(nat, Key)>,
      p: Stored -> bool)
    requires Shrunk(a, b) && Spared(a, b, p) && Removals(a, b, first)
    requires Shrunk(b, c) && Spared(b, c, p) && Removals(b, c, second)
    ensures Shrunk(a, c) && Spared(a, c, p) && Removals(a, c, first + second)
  {
  }

  /** The sampled keys of one database, each checked and removed in turn. */
  method ExpireIn(ds: DS.DataState, db: nat, lookups: nat, now: int)
      returns (expired: nat, taken: nat, ghost gone: set<(nat, Key)>)
    requires ds.Valid() && db < |ds.shards|
    modifies ds
    ensures ds.Valid() && |ds.shards| == |old(ds.shards)| && KeyCount(ds.shards) + expired == KeyCount(old(ds.shards))
    ensures Shrunk(old(ds.shards), ds.shards) && Spared(old(ds.shards), ds.shards, (v: Stored) => !v.ExpiredAt(now))
    ensures DS.Recorded(old(ds.State()), gone, ds.State()) && Removals(old(ds.shards), ds.shards, gone)
    ensures forall i :: 0 <= i < |ds.shards| && i != db ==> ds.shards[i].data == old(ds.shards)[i].data
    ensures taken == if |old(ds.shards)[db].expires| <= lookups then |old(ds.shards)[db].expires| else lookups
    ensures |old(ds.shards)[db].expires| <= lookups ==> expired == |DS.DataState.Expired(old(ds.shards)[db].data, now)|
    ensures |old(ds.shards)[db].expires| <= lookups ==> Fresh(ds.shards[db], now)
  {
    hide Ok, KeyCount, DS.Recorded, Removals, Spared;
    ghost var start := ds.State();
    expired, gone := 0, {};
    DS.DataState.RecordedStart(start);
    NothingRemoved(ds.shards);
    SparedAll(ds.shards, now);
    var sampled: seq<Key> := [];
    if ds.shards[db].expires != map[] {
      sampled := SampleKeys(ds.shards[db].expires.Keys, lookups);
    }
    taken := |sampled|;
    for i := 0 to |sampled|
      invariant Ok(ds.State()) && |ds.shards| == |start.shards|
      invariant KeyCount(ds.shards) + expired == KeyCount(start.shards)
      invariant Shrunk(start.shards, ds.shards) && Spared(start.shards, ds.shards, (v: Stored) => !v.ExpiredAt(now))
      invariant DS.Recorded(start, gone, ds.State()) && Removals(start.shards, ds.shards, gone)
      invariant forall j :: 0 <= j < |ds.shards| && j != db ==> ds.shards[j].data == start.shards[j].data
      invariant forall j :: 0 <= j < i && sampled[j] in ds.shards[db].data ==>
        !ds.shards[db].data[sampled[j]].ExpiredAt(now)
    {
      ghost var before := ds.State();
      var dropped := ExpireOne(ds, db, sampled[i], now);
      if dropped {
        RemovalExtends(start.shards, before.shards, db, sampled[i], ds.shards, (v: Stored) => !v.ExpiredAt(now));
        RemovalsExtend(start.shards, before.shards, gone, db, sampled[i], ds.shards);
        DS.RecordedCompose(start, gone, before, {(db, sampled[i])}, ds.State());
        expired, gone := expired + 1, gone + {(db, sampled[i])};
      }
    }
    if |start.shards[db].expires| <= lookups {
      AllChecked(start, ds.State(), db, sampled, now);
      CountExpired(start.shards, ds.shards, db, now);
    }
  }

  lemma CountExpired(a: seq<Shard>, b: seq<Shard>, db: nat, now: int)
    requires Shrunk(a, b) && Spared(a, b, (v: Stored) => !v.ExpiredAt(now)) && db < |a| && Fresh(b[db], now)
    requires forall i :: 0 <= i < |a| && i != db ==> b[i].data == a[i].data
    ensures KeyCount(b) + |DS.DataState.Expired(a[db].data, now)| == KeyCount(a)
  {
    var data, gone := a[db].data, DS.DataState.Expired(a[db].data, now);
    assert b[db].data.Keys == data.Keys - gone;
    assert |data.Keys - gone| == |data.Keys| - |gone|;
    KeyCountBut(a, b, db);
  }

  lemma SparedAll(a: seq<Shard>, now: int)
    ensures Spared(a, a, (v: Stored) => !v.ExpiredAt(now))
  {
  }

  /** When every key with a deadline was checked no expired key is left. */
  lemma AllChecked(s: Store, t: Store, db: nat, sampled: seq<Key>, now: int)
    requires Ok(s) && db < |s.shards| && Shrunk(s.shards, t.shards)
    requires forall k :: k in s.shards[db].expires ==> k in sampled
    requires forall j :: 0 <= j < |sampled| && sampled[j] in t.shards[db].data ==>
      !t.shards[db].data[sampled[j]].ExpiredAt(now)
    ensures Fresh(t.shards[db], now)
  {
    hide Ok, Footprint;
    OkShard(s, db);
    forall k | k in t.shards[db].data ensures !t.shards[db].data[k].ExpiredAt(now) {
      if t.shards[db].data[k].Deadline().Some? { assert k in s.shards[db].expires; }
    }
  }

  /** The locked check and removal of one sampled key; a key already gone only loses a stale index entry. */
  method ExpireOne(ds: DS.DataState, db: nat, key: Key, now: int) returns (expired: bool)
    requires ds.Valid() && db < |ds.shards|
    modifies ds
    ensures ds.Valid()
    ensures expired <==> key in old(ds.shards)[db].data && old(ds.shards)[db].data[key].ExpiredAt(now)
    ensures expired ==> OneRemoved(old(ds.shards), db, key, ds.shards)
    ensures expired ==> DS.Recorded(old(ds.State()), {(db, key)}, ds.State())
    ensures !expired ==> ds.State() == old(ds.State())
  {
    hide Ok, Footprint, DS.Recorded;
    var sh := ds.shards[db];
    if key in sh.data && sh.data[key].ExpiredAt(now) {
      Drop(ds, db, key);
      return true;
    }
    if key !in sh.data {
      OkShard(ds.State(), db);
      assert sh.expires - {key} == sh.expires;
      assert ds.shards[db := sh] == ds.shards;
      ds.shards := ds.shards[db := sh.(expires := sh.expires - {key})];
    }
    return false;
  }
}
