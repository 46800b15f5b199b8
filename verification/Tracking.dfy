/**
 * Client-side caching: which clients are told when a key changes. Trackers
 * watch single keys, once, or key prefixes, until reconfigured; the
 * invalidation may be redirected to another client.
 */
module Tracking {
  import opened Base
  import opened Score

  // ---- sorted lists without repetition --------------------------------------

  ghost predicate Sorted(s: seq<Bytes>) {
    forall i, j :: 0 <= i < j < |s| ==> BytesLess(s[i], s[j])
  }

  function InsertKey(s: seq<Bytes>, key: Bytes): (r: seq<Bytes>)
    ensures forall k :: k in r <==> k == key || k in s
  {
    if s == [] then [key]
    else if key == s[0] then s
    else if BytesLess(key, s[0]) then [key] + s
    else
      var r := [s[0]] + InsertKey(s[1..], key);
      assert s == [s[0]] + s[1..];
      r
  }

  lemma SortedPrepend(first: Bytes, s: seq<Bytes>)
    requires Sorted(s) && forall k :: k in s ==> BytesLess(first, k)
    ensures Sorted([first] + s)
  {
    var all := [first] + s;
    forall i, j | 0 <= i < j < |all| ensures BytesLess(all[i], all[j]) {
      assert all[j] == s[j - 1] && s[j - 1] in s;
    }
  }

  lemma SortedTail(s: seq<Bytes>)
    requires Sorted(s) && s != []
    ensures Sorted(s[1..]) && forall k :: k in s[1..] ==> BytesLess(s[0], k)
  {
    forall k | k in s[1..] ensures BytesLess(s[0], k) {
      var i :| 0 <= i < |s| - 1 && s[1..][i] == k;
      assert k == s[i + 1];
    }
  }

  lemma {:induction false} InsertSorted(s: seq<Bytes>, key: Bytes)
    requires Sorted(s)
    ensures Sorted(InsertKey(s, key))
  {
    hide Sorted, BytesLess;
    if s == [] {
      assert Sorted([]) by { EmptySorted(); }
      SortedPrepend(key, []);
      assert [key] + [] == [key];
    } else {
      SortedTail(s);
      BytesLessTotal(key, s[0]);
      if key != s[0] && BytesLess(key, s[0]) {
        forall k | k in s ensures BytesLess(key, k) {
          assert s == [s[0]] + s[1..];
          if k != s[0] { BytesLessTransitive(key, s[0], k); }
        }
        SortedPrepend(key, s);
      } else if key != s[0] {
        InsertSorted(s[1..], key);
        SortedPrepend(s[0], InsertKey(s[1..], key));
      }
    }
  }

  lemma EmptySorted()
    ensures Sorted([])
  {
  }

  /** What sorting and then dropping repetitions leaves. */
  function SortDedup(s: seq<Bytes>): (r: seq<Bytes>)
    ensures forall k :: k in r <==> k in s
  {
    if s == [] then []
    else
      var n := |s| - 1;
      assert s == s[..n] + [s[n]];
      InsertKey(SortDedup(s[..n]), s[n])
  }

  lemma {:induction false} SortDedupSorted(s: seq<Bytes>)
    ensures Sorted(SortDedup(s))
  {
    if s != [] {
      SortDedupSorted(s[..|s| - 1]);
      InsertSorted(SortDedup(s[..|s| - 1]), s[|s| - 1]);
    }
  }

  lemma FirstIn(s: seq<Bytes>)
    ensures s == [] || s[0] in s
  {
  }

  /** A sorted list without repetitions is determined by its elements. */
  lemma {:induction false} SortedUnique(a: seq<Bytes>, b: seq<Bytes>)
    requires Sorted(a) && Sorted(b) && forall k :: k in a <==> k in b
    ensures a == b
  {
    hide Sorted, BytesLess;
    if a == [] || b == [] {
      FirstIn(a);
      FirstIn(b);
    } else {
      SortedTail(a);
      SortedTail(b);
      assert a == [a[0]] + a[1..] && b == [b[0]] + b[1..];
      assert a[0] in b && b[0] in a;
      BytesLessTotal(a[0], b[0]);
      assert a[0] == b[0];
      forall k ensures k in a[1..] <==> k in b[1..] {
        BytesLessTotal(a[0], a[0]);
        assert k in a <==> k == a[0] || k in a[1..];
        assert k in b <==> k == b[0] || k in b[1..];
      }
      SortedUnique(a[1..], b[1..]);
    }
  }

  // ---- watchers -------------------------------------------------------------

  datatype Watcher = Watcher(target: Client, noLoop: bool)
  datatype Broadcast = Broadcast(target: Client, noLoop: bool, prefixes: seq<Bytes>)

  type Watchers = map<DbKey, map<Client, Watcher>>
  type Trackers = map<Client, set<DbKey>>
  type Broadcasts = map<Client, Broadcast>

  predicate Watches(watchers: Watchers, tracker: Client, key: DbKey) {
    key in watchers && tracker in watchers[key]
  }

  predicate Tracks(trackers: Trackers, tracker: Client, key: DbKey) {
    tracker in trackers && key in trackers[tracker]
  }

  /** The two indexes describe the same relation and hold no empty entry. */
  ghost predicate Inverse(watchers: Watchers, trackers: Trackers) {
    && (forall t, k :: Watches(watchers, t, k) <==> Tracks(trackers, t, k))
    && (forall k :: k in watchers ==> watchers[k].Keys != {})
    && NoTrackerEmpty(trackers)
  }

  predicate Matches(prefixes: seq<Bytes>, key: Bytes) {
    prefixes == [] || exists p :: p in prefixes && p <= key
  }

  /** A key watcher reports to `target` unless it asked not to hear of its own writes. */
  predicate Reports(watcher: Watcher, tracker: Client, writer: Client, target: Client) {
    watcher.target == target && !(watcher.noLoop && tracker == writer)
  }

  /** A prefix watcher does the same for the keys its prefixes match. */
  predicate ReportsKey(watcher: Broadcast, tracker: Client, writer: Client, key: Bytes, target: Client) {
    watcher.target == target && !(watcher.noLoop && tracker == writer) && Matches(watcher.prefixes, key)
  }

  /** One of the trackers in `from` reports to `target`. */
  ghost predicate SomeReports(watchers: map<Client, Watcher>, from: set<Client>, writer: Client, target: Client) {
    exists t :: t in from && t in watchers && Reports(watchers[t], t, writer, target)
  }

  ghost predicate SomeReportsKey(broadcasts: Broadcasts, from: set<Client>, writer: Client, key: Bytes,
      target: Client)
  {
    exists t :: t in from && t in broadcasts && ReportsKey(broadcasts[t], t, writer, key, target)
  }

  /** A write of `key` by `writer` is to be reported to `target`. */
  ghost predicate Sent(watchers: Watchers, broadcasts: Broadcasts, writer: Client, db: nat, key: Bytes,
      target: Client)
  {
    || (DbKey(db, key) in watchers
        && SomeReports(watchers[DbKey(db, key)], watchers[DbKey(db, key)].Keys, writer, target))
    || SomeReportsKey(broadcasts, broadcasts.Keys, writer, key, target)
  }

  // ---- lists under construction ---------------------------------------------

  type Lists = map<Client, seq<Bytes>>

  predicate Holds(lists: Lists, target: Client, key: Bytes) {
    target in lists && key in lists[target]
  }

  function Push(lists: Lists, target: Client, key: Bytes): (r: Lists)
    ensures forall t, k :: Holds(r, t, k) <==> Holds(lists, t, k) || (t == target && k == key)
    ensures NoneEmpty(lists) ==> NoneEmpty(r)
  {
    lists[target := (if target in lists then lists[target] else []) + [key]]
  }

  ghost predicate NoneEmpty(lists: Lists) {
    forall t :: t in lists ==> lists[t] != []
  }

  function Forget(trackers: Trackers, tracker: Client, key: DbKey): Trackers {
    if tracker !in trackers then trackers
    else if trackers[tracker] - {key} == {} then trackers - {tracker}
    else trackers[tracker := trackers[tracker] - {key}]
  }

  ghost predicate NoTrackerEmpty(trackers: Trackers) {
    forall t :: t in trackers ==> trackers[t] != {}
  }

  lemma ForgetTracks(trackers: Trackers, tracker: Client, key: DbKey)
    ensures forall t, k :: Tracks(Forget(trackers, tracker, key), t, k) <==>
      Tracks(trackers, t, k) && !(t == tracker && k == key)
    ensures NoTrackerEmpty(trackers) ==> NoTrackerEmpty(Forget(trackers, tracker, key))
  {
    var after := Forget(trackers, tracker, key);
    forall t, k ensures Tracks(after, t, k) <==> Tracks(trackers, t, k) && !(t == tracker && k == key) {
      if t == tracker && t in trackers {
        assert k in trackers[t] && k != key <==> k in trackers[t] - {key};
      }
    }
  }

  // ---- the registry ---------------------------------------------------------

  class TrackingState {
    var keyWatchers: Watchers
    var trackerKeys: Trackers
    var broadcastWatchers: Broadcasts
    var brokenRedirects: set<Client>

    ghost predicate Valid()
      reads this
    {
      Inverse(keyWatchers, trackerKeys)
    }

    constructor ()
      ensures Valid() && keyWatchers == map[] && broadcastWatchers == map[] && brokenRedirects == {}
    {
      keyWatchers, trackerKeys, broadcastWatchers, brokenRedirects := map[], map[], map[], {};
    }

    /** When there are no watchers no write has to be reported to anybody. */
    method HasWatchers() returns (any: bool)
      ensures any <==> keyWatchers.Keys != {} || broadcastWatchers.Keys != {}
      ensures !any ==> forall writer, db, key, target :: !Sent(keyWatchers, broadcastWatchers, writer, db, key, target)
    {
      any := keyWatchers != map[] || broadcastWatchers != map[];
    }

    method TrackKey(tracker: Client, target: Client, noLoop: bool, db: nat, key: Bytes)
      requires Valid()
      modifies this`keyWatchers, this`trackerKeys
      ensures Valid()
      ensures forall t, k :: Watches(keyWatchers, t, k) <==>
        Watches(old(keyWatchers), t, k) || (t == tracker && k == DbKey(db, key))
      ensures forall t, k :: Watches(keyWatchers, t, k) ==>
        keyWatchers[k][t] == if t == tracker && k == DbKey(db, key) then Watcher(target, noLoop)
          else old(keyWatchers)[k][t]
    {
      var tracked := DbKey(db, key);
      var entry := if tracked in keyWatchers then keyWatchers[tracked] else map[];
      keyWatchers := keyWatchers[tracked := entry[tracker := Watcher(target, noLoop)]];
      var keys := if tracker in trackerKeys then trackerKeys[tracker] else {};
      trackerKeys := trackerKeys[tracker := keys + {tracked}];
      TrackedInverse(old(keyWatchers), old(trackerKeys), tracker, Watcher(target, noLoop), tracked);
    }

    /** Prefixes are stored sorted and without repetition; which keys they match is unchanged. */
    method ConfigureBroadcast(tracker: Client, target: Client, noLoop: bool, prefixes: seq<Bytes>)
      modifies this`broadcastWatchers
      ensures broadcastWatchers.Keys == old(broadcastWatchers).Keys + {tracker}
      ensures forall t :: t in old(broadcastWatchers) && t != tracker ==>
        broadcastWatchers[t] == old(broadcastWatchers)[t]
      ensures broadcastWatchers[tracker].target == target && broadcastWatchers[tracker].noLoop == noLoop
      ensures Sorted(broadcastWatchers[tracker].prefixes)
      ensures forall key :: Matches(broadcastWatchers[tracker].prefixes, key) <==> Matches(prefixes, key)
    {
      SortDedupSorted(prefixes);
      MatchesSorted(prefixes);
      broadcastWatchers := broadcastWatchers[tracker := Broadcast(target, noLoop, SortDedup(prefixes))];
    }

    /** One written key: its watchers are consumed, and those not suppressed report it to their targets. */
    method Consume(tracked: DbKey, writer: Client, lists: Lists) returns (r: Lists)
      requires Valid() && tracked in keyWatchers && NoneEmpty(lists)
      modifies this`keyWatchers, this`trackerKeys
      ensures Valid() && keyWatchers == old(keyWatchers) - {tracked}
      ensures NoneEmpty(r)
      ensures forall t, k :: Holds(r, t, k) <==>
        Holds(lists, t, k)
        || (k == tracked.key && SomeReports(old(keyWatchers)[tracked], old(keyWatchers)[tracked].Keys, writer, t))
    {
      hide Reports, SomeReports, Forget, Push, Holds, Inverse, NoneEmpty, NoTrackerEmpty;
      InverseParts(keyWatchers, trackerKeys);
      var watchers := keyWatchers[tracked];
      keyWatchers := keyWatchers - {tracked};
      r := lists;
      var todo := watchers.Keys;
      ghost var before := trackerKeys;
      NoneReports(watchers, writer);
      assert watchers.Keys - todo == {};
      while todo != {}
        invariant todo <= watchers.Keys && keyWatchers == old(keyWatchers) - {tracked}
        invariant NoneEmpty(r) && NoTrackerEmpty(trackerKeys)
        invariant forall t, k :: Tracks(trackerKeys, t, k) <==>
          Tracks(before, t, k) && !(k == tracked && t in watchers.Keys - todo)
        invariant forall t, k :: Holds(r, t, k) <==>
          Holds(lists, t, k)
          || (k == tracked.key && SomeReports(watchers, watchers.Keys - todo, writer, t))
      {
        var tracker :| tracker in todo;
        var watcher := watchers[tracker];
        OneReports(watchers, watchers.Keys - todo, tracker, writer);
        ReportsIs(watcher, tracker, writer);
        if !(watcher.noLoop && tracker == writer) {
          r := Push(r, watcher.target, tracked.key);
        }
        ForgetTracks(trackerKeys, tracker, tracked);
        trackerKeys := Forget(trackerKeys, tracker, tracked);
        assert watchers.Keys - (todo - {tracker}) == (watchers.Keys - todo) + {tracker};
        todo := todo - {tracker};
      }
      assert watchers.Keys - todo == watchers.Keys;
      ConsumedInverse(old(keyWatchers), before, trackerKeys, tracked);
    }

    /** One written key: the prefix watchers that match it report it to their targets. */
    method Announce(key: Bytes, writer: Client, lists: Lists) returns (r: Lists)
      requires NoneEmpty(lists)
      ensures NoneEmpty(r)
      ensures forall t, k :: Holds(r, t, k) <==>
        Holds(lists, t, k) || (k == key && SomeReportsKey(broadcastWatchers, broadcastWatchers.Keys, writer, key, t))
    {
      hide ReportsKey, SomeReportsKey, Push, Holds, NoneEmpty, Matches;
      r := lists;
      var todo := broadcastWatchers.Keys;
      NoneReportsKey(broadcastWatchers, writer, key);
      assert broadcastWatchers.Keys - todo == {};
      while todo != {}
        invariant todo <= broadcastWatchers.Keys && NoneEmpty(r)
        invariant forall t, k :: Holds(r, t, k) <==>
          Holds(lists, t, k)
          || (k == key && SomeReportsKey(broadcastWatchers, broadcastWatchers.Keys - todo, writer, key, t))
      {
        var tracker :| tracker in todo;
        var watcher := broadcastWatchers[tracker];
        OneReportsKey(broadcastWatchers, broadcastWatchers.Keys - todo, tracker, writer, key);
        ReportsKeyIs(watcher, tracker, writer, key);
        assert broadcastWatchers.Keys - (todo - {tracker}) == (broadcastWatchers.Keys - todo) + {tracker};
        todo := todo - {tracker};
        if watcher.noLoop && tracker == writer {
          continue;
        }
        if Matches(watcher.prefixes, key) {
          r := Push(r, watcher.target, key);
        }
      }
      assert broadcastWatchers.Keys - todo == broadcastWatchers.Keys;
    }

    /**
     * Per target, the sorted list without repetition of exactly the written keys that some watcher not
     * suppressed for this writer sends there; every watcher of a written key is consumed.
     */
    method InvalidateKeys(writer: Client, db: nat, keys: seq<Bytes>) returns (result: Lists)
      requires Valid()
      modifies this`keyWatchers, this`trackerKeys
      ensures Valid() && keyWatchers == old(keyWatchers) - (set k | k in keys :: DbKey(db, k))
      ensures forall t, k :: Holds(result, t, k) <==>
        k in keys && Sent(old(keyWatchers), broadcastWatchers, writer, db, k, t)
      ensures forall t :: t in result ==> result[t] != [] && Sorted(result[t])
    {
      hide Inverse, SomeReports, SomeReportsKey, Holds, NoneEmpty, Sorted, SortedAll;
      var lists: Lists := map[];
      NothingHeld();
      for n := 0 to |keys|
        invariant Valid() && NoneEmpty(lists)
        invariant keyWatchers == old(keyWatchers) - (set k | k in keys[..n] :: DbKey(db, k))
        invariant forall t, k :: Holds(lists, t, k) <==>
          k in keys[..n] && Sent(old(keyWatchers), broadcastWatchers, writer, db, k, t)
      {
        var key := keys[n];
        assert keys[..n + 1] == keys[..n] + [key];
        ghost var seen := set k | k in keys[..n] :: DbKey(db, k);
        assert (set k | k in keys[..n + 1] :: DbKey(db, k)) == seen + {DbKey(db, key)};
        assert DbKey(db, key) in seen <==> key in keys[..n];
        if DbKey(db, key) in keyWatchers {
          lists := Consume(DbKey(db, key), writer, lists);
        }
        assert keyWatchers == old(keyWatchers) - (seen + {DbKey(db, key)});
        lists := Announce(key, writer, lists);
      }
      assert keys[..|keys|] == keys;
      result := SortedAll(lists);
      SortedLists(lists);
    }

    /** The client stops tracking: it leaves every key it watched, its prefixes and the broken redirects. */
    method ClearTracker(tracker: Client)
      requires Valid()
      modifies this
      ensures Valid() && Dropped(old(keyWatchers), keyWatchers, tracker)
      ensures broadcastWatchers == old(broadcastWatchers) - {tracker}
      ensures brokenRedirects == old(brokenRedirects) - {tracker}
    {
      hide Inverse, Dropped;
      broadcastWatchers := broadcastWatchers - {tracker};
      brokenRedirects := brokenRedirects - {tracker};
      ghost var before := keyWatchers;
      if tracker in trackerKeys {
        var keys := trackerKeys[tracker];
        OnlyTracked(before, trackerKeys, tracker);
        trackerKeys := trackerKeys - {tracker};
        var empty: set<DbKey> := {};
        var todo := keys;
        while todo != {}
          invariant todo <= keys && keyWatchers.Keys == before.Keys && trackerKeys == old(trackerKeys) - {tracker}
          invariant broadcastWatchers == old(broadcastWatchers) - {tracker}
          invariant brokenRedirects == old(brokenRedirects) - {tracker}
          invariant forall k :: k in before ==> keyWatchers[k] == if k in todo then before[k] else before[k] - {tracker}
          invariant forall k :: k in empty <==>
            k in keys && k !in todo && k in before && (before[k] - {tracker}).Keys == {}
        {
          var tracked :| tracked in todo;
          todo := todo - {tracked};
          if tracked in keyWatchers {
            keyWatchers := keyWatchers[tracked := keyWatchers[tracked] - {tracker}];
            if keyWatchers[tracked].Keys == {} {
              empty := empty + {tracked};
            }
          }
        }
        DropEmpty(before, keyWatchers, keys, empty, tracker);
        keyWatchers := keyWatchers - empty;
      } else {
        DropNothing(before, trackerKeys, tracker);
        assert trackerKeys - {tracker} == trackerKeys;
      }
      DroppedInverse(before, keyWatchers, old(trackerKeys), tracker);
    }

    /** Redirections to a client that goes away fall back to the trackers themselves and are remembered as broken. */
    method ClearTarget(target: Client) returns (detached: seq<Client>)
      requires Valid()
      modifies this
      ensures Valid() && trackerKeys == old(trackerKeys)
      ensures KeysRetargeted(old(keyWatchers), keyWatchers, target)
      ensures BroadcastsRetargeted(old(broadcastWatchers), broadcastWatchers, target)
      ensures AscendingIds(detached)
      ensures forall t :: t in detached <==> Redirected(old(keyWatchers), old(broadcastWatchers), t, target)
      ensures brokenRedirects == old(brokenRedirects) + (set t | t in detached)
    {
      hide Inverse, KeysRetargeted, BroadcastsRetargeted, AscendingIds, Redirected;
      var moved := DetachBroadcasts(target);
      var movedKeys := DetachKeys(target);
      RetargetedInverse(old(keyWatchers), keyWatchers, trackerKeys, target);
      RedirectedIs(old(keyWatchers), old(broadcastWatchers), target);
      detached := SortIds(moved + movedKeys);
      brokenRedirects := brokenRedirects + (set t | t in detached);
    }

    method DetachBroadcasts(target: Client) returns (moved: set<Client>)
      modifies this`broadcastWatchers
      ensures BroadcastsRetargeted(old(broadcastWatchers), broadcastWatchers, target)
      ensures forall t :: t in moved <==> t in old(broadcastWatchers) && old(broadcastWatchers)[t].target == target
    {
      moved := {};
      var todo := broadcastWatchers.Keys;
      while todo != {}
        invariant todo <= old(broadcastWatchers).Keys && broadcastWatchers.Keys == old(broadcastWatchers).Keys
        invariant forall t :: t in broadcastWatchers ==>
          broadcastWatchers[t] == if t in todo then old(broadcastWatchers)[t]
                                  else RetargetBroadcast(old(broadcastWatchers)[t], t, target)
        invariant forall t :: t in moved <==>
          t in old(broadcastWatchers) && t !in todo && old(broadcastWatchers)[t].target == target
      {
        var tracker :| tracker in todo;
        todo := todo - {tracker};
        if broadcastWatchers[tracker].target == target {
          broadcastWatchers := broadcastWatchers[tracker := broadcastWatchers[tracker].(target := tracker)];
          moved := moved + {tracker};
        }
      }
    }

    method DetachKeys(target: Client) returns (moved: set<Client>)
      modifies this`keyWatchers
      ensures KeysRetargeted(old(keyWatchers), keyWatchers, target)
      ensures forall t :: t in moved <==> RedirectedByKey(old(keyWatchers), old(keyWatchers).Keys, t, target)
    {
      hide WatchersRetargeted, RedirectedByKey;
      ghost var before := keyWatchers;
      moved := {};
      var todo := keyWatchers.Keys;
      NoneRedirected(before, target);
      assert before.Keys - todo == {};
      while todo != {}
        invariant todo <= before.Keys && keyWatchers.Keys == before.Keys
        invariant forall k :: k in before && k in todo ==> keyWatchers[k] == before[k]
        invariant forall k :: k in before && k !in todo ==> WatchersRetargeted(before[k], keyWatchers[k], target)
        invariant forall t :: t in moved <==> RedirectedByKey(before, before.Keys - todo, t, target)
      {
        var key :| key in todo;
        var retargeted, some := DetachWatchers(keyWatchers[key], target);
        OneRedirected(before, before.Keys - todo, key, target);
        assert before.Keys - (todo - {key}) == (before.Keys - todo) + {key};
        todo := todo - {key};
        keyWatchers := keyWatchers[key := retargeted];
        moved := moved + some;
      }
      assert before.Keys - todo == before.Keys;
    }

    /** A disconnecting client: it tracks nothing, is told nothing, and everybody else's tracking is kept. */
    method RemoveClient(client: Client) returns (detached: seq<Client>)
      requires Valid()
      modifies this
      ensures Valid()
      ensures forall writer, db, key :: !Sent(keyWatchers, broadcastWatchers, writer, db, key, client)
      ensures forall t, k :: Watches(keyWatchers, t, k) <==> Watches(old(keyWatchers), t, k) && t != client
      ensures forall t, k :: Watches(keyWatchers, t, k) ==>
        keyWatchers[k][t] == Retarget(old(keyWatchers)[k][t], t, client)
      ensures BroadcastsRetargeted(old(broadcastWatchers) - {client}, broadcastWatchers, client)
      ensures AscendingIds(detached)
      ensures forall t :: t in detached <==>
        t != client && Redirected(old(keyWatchers), old(broadcastWatchers), t, client)
      ensures brokenRedirects == (old(brokenRedirects) - {client}) + (set t | t in detached)
    {
      hide Inverse, Dropped, KeysRetargeted, BroadcastsRetargeted, AscendingIds, Redirected, Sent;
      ClearTracker(client);
      ghost var cleared, casts := keyWatchers, broadcastWatchers;
      detached := ClearTarget(client);
      NothingSent(cleared, keyWatchers, casts, broadcastWatchers, client, old(keyWatchers));
      Conserved(old(keyWatchers), cleared, keyWatchers, client);
      StillRedirected(old(keyWatchers), cleared, old(broadcastWatchers), client);
    }
  }

  // ---- redirections ---------------------------------------------------------

  function Retarget(watcher: Watcher, tracker: Client, target: Client): Watcher {
    if watcher.target == target then watcher.(target := tracker) else watcher
  }

  function RetargetBroadcast(watcher: Broadcast, tracker: Client, target: Client): Broadcast {
    if watcher.target == target then watcher.(target := tracker) else watcher
  }

  ghost predicate WatchersRetargeted(before: map<Client, Watcher>, after: map<Client, Watcher>, target: Client) {
    after.Keys == before.Keys && forall t :: t in before ==> after[t] == Retarget(before[t], t, target)
  }

  ghost predicate KeysRetargeted(before: Watchers, after: Watchers, target: Client) {
    after.Keys == before.Keys && forall k :: k in before ==> WatchersRetargeted(before[k], after[k], target)
  }

  ghost predicate BroadcastsRetargeted(before: Broadcasts, after: Broadcasts, target: Client) {
    after.Keys == before.Keys && forall t :: t in before ==> after[t] == RetargetBroadcast(before[t], t, target)
  }

  ghost predicate RedirectedByKey(watchers: Watchers, keys: set<DbKey>, tracker: Client, target: Client) {
    exists k :: k in keys && Watches(watchers, tracker, k) && watchers[k][tracker].target == target
  }

  /** The tracker has invalidations, of a key or a prefix, sent to the target. */
  ghost predicate Redirected(watchers: Watchers, broadcasts: Broadcasts, tracker: Client, target: Client) {
    || (tracker in broadcasts && broadcasts[tracker].target == target)
    || RedirectedByKey(watchers, watchers.Keys, tracker, target)
  }

  method DetachWatchers(watchers: map<Client, Watcher>, target: Client)
      returns (after: map<Client, Watcher>, moved: set<Client>)
    ensures WatchersRetargeted(watchers, after, target)
    ensures forall t :: t in moved <==> t in watchers && watchers[t].target == target
  {
    after, moved := watchers, {};
    var todo := watchers.Keys;
    while todo != {}
      invariant todo <= watchers.Keys && after.Keys == watchers.Keys
      invariant forall t :: t in watchers ==>
        after[t] == if t in todo then watchers[t] else Retarget(watchers[t], t, target)
      invariant forall t :: t in moved <==> t in watchers && t !in todo && watchers[t].target == target
    {
      var tracker :| tracker in todo;
      todo := todo - {tracker};
      if after[tracker].target == target {
        after := after[tracker := after[tracker].(target := tracker)];
        moved := moved + {tracker};
      }
    }
  }

  lemma NoneRedirected(watchers: Watchers, target: Client)
    ensures forall t :: !RedirectedByKey(watchers, {}, t, target)
  {
  }

  lemma OneRedirected(watchers: Watchers, keys: set<DbKey>, key: DbKey, target: Client)
    requires key in watchers
    ensures forall t :: RedirectedByKey(watchers, keys + {key}, t, target) <==>
      RedirectedByKey(watchers, keys, t, target) || (t in watchers[key] && watchers[key][t].target == target)
  {
    forall t
      ensures RedirectedByKey(watchers, keys + {key}, t, target) <==>
        RedirectedByKey(watchers, keys, t, target) || (t in watchers[key] && watchers[key][t].target == target)
    {
      if RedirectedByKey(watchers, keys, t, target) {
        var k :| k in keys && Watches(watchers, t, k) && watchers[k][t].target == target;
        assert k in keys + {key};
      }
      if t in watchers[key] && watchers[key][t].target == target {
        assert key in keys + {key} && Watches(watchers, t, key);
      }
    }
  }

  lemma RedirectedIs(watchers: Watchers, broadcasts: Broadcasts, target: Client)
    ensures forall t :: Redirected(watchers, broadcasts, t, target) <==>
      (t in broadcasts && broadcasts[t].target == target) || RedirectedByKey(watchers, watchers.Keys, t, target)
  {
  }

  lemma RetargetedInverse(before: Watchers, after: Watchers, trackers: Trackers, target: Client)
    requires Inverse(before, trackers) && KeysRetargeted(before, after, target)
    ensures Inverse(after, trackers)
  {
    forall t, k ensures Watches(after, t, k) <==> Tracks(trackers, t, k) {
      assert Watches(before, t, k) <==> Tracks(trackers, t, k);
    }
  }

  lemma NothingSent(cleared: Watchers, after: Watchers, casts: Broadcasts, castsAfter: Broadcasts, client: Client,
      before: Watchers)
    requires Dropped(before, cleared, client) && KeysRetargeted(cleared, after, client)
    requires client !in casts && BroadcastsRetargeted(casts, castsAfter, client)
    ensures forall writer, db, key :: !Sent(after, castsAfter, writer, db, key, client)
  {
    forall writer, db, key ensures !Sent(after, castsAfter, writer, db, key, client) {
      forall t | t in castsAfter ensures castsAfter[t].target != client {}
      var k := DbKey(db, key);
      if k in after {
        forall t | t in after[k] ensures after[k][t].target != client {
          assert WatchersRetargeted(cleared[k], after[k], client);
        }
      }
    }
  }

  lemma Conserved(before: Watchers, cleared: Watchers, after: Watchers, client: Client)
    requires Dropped(before, cleared, client) && KeysRetargeted(cleared, after, client)
    ensures forall t, k :: Watches(after, t, k) <==> Watches(before, t, k) && t != client
    ensures forall t, k :: Watches(after, t, k) ==> after[k][t] == Retarget(before[k][t], t, client)
  {
    forall t, k ensures Watches(after, t, k) <==> Watches(before, t, k) && t != client {
      assert Watches(before, t, k) && t != client ==> t in (before[k] - {client}).Keys;
      assert k in cleared ==> WatchersRetargeted(cleared[k], after[k], client);
    }
    forall t, k | Watches(after, t, k) ensures after[k][t] == Retarget(before[k][t], t, client) {
      assert WatchersRetargeted(cleared[k], after[k], client);
    }
  }

  lemma StillRedirected(before: Watchers, cleared: Watchers, casts: Broadcasts, client: Client)
    requires Dropped(before, cleared, client)
    ensures forall t :: Redirected(cleared, casts - {client}, t, client) <==>
      t != client && Redirected(before, casts, t, client)
  {
    forall t
      ensures Redirected(cleared, casts - {client}, t, client) <==> t != client && Redirected(before, casts, t, client)
    {
      if RedirectedByKey(cleared, cleared.Keys, t, client) {
        var k :| k in cleared.Keys && Watches(cleared, t, k) && cleared[k][t].target == client;
        assert k in before.Keys && Watches(before, t, k);
      }
      if t != client && RedirectedByKey(before, before.Keys, t, client) {
        var k :| k in before.Keys && Watches(before, t, k) && before[k][t].target == client;
        assert t in (before[k] - {client}).Keys;
        assert k in cleared.Keys && Watches(cleared, t, k);
      }
    }
  }

  // ---- sorted identifiers ---------------------------------------------------

  ghost predicate AscendingIds(s: seq<Client>) {
    forall i, j :: 0 <= i < j < |s| ==> s[i].id < s[j].id
  }

  method SortIds(ids: set<Client>) returns (r: seq<Client>)
    ensures AscendingIds(r) && forall c :: c in r <==> c in ids
  {
    r := [];
    var todo := ids;
    while todo != {}
      invariant todo <= ids && AscendingIds(r) && forall c :: c in r <==> c in ids && c !in todo
    {
      var c :| c in todo;
      todo := todo - {c};
      r := InsertId(r, c);
    }
  }

  method InsertId(s: seq<Client>, c: Client) returns (r: seq<Client>)
    requires AscendingIds(s) && c !in s
    ensures AscendingIds(r) && forall d :: d in r <==> d == c || d in s
  {
    var pos := 0;
    while pos < |s| && s[pos].id < c.id
      invariant 0 <= pos <= |s| && forall i :: 0 <= i < pos ==> s[i].id < c.id
    {
      pos := pos + 1;
    }
    r := s[..pos] + [c] + s[pos..];
    forall i | pos <= i < |s| ensures c.id < s[i].id { assert s[i] != c; }
    assert s == s[..pos] + s[pos..];
  }

  /** `after` is `before` without the tracker, and without the keys this leaves unwatched. */
  ghost predicate Dropped(before: Watchers, after: Watchers, tracker: Client) {
    && (forall k :: k in after <==> k in before && (before[k] - {tracker}).Keys != {})
    && (forall k :: k in after ==> after[k] == before[k] - {tracker})
  }

  lemma OnlyTracked(watchers: Watchers, trackers: Trackers, tracker: Client)
    requires Inverse(watchers, trackers)
    ensures forall k :: k in watchers ==> watchers[k].Keys != {}
    ensures forall k :: k in watchers && !Tracks(trackers, tracker, k) ==> watchers[k] - {tracker} == watchers[k]
  {
    forall k | k in watchers && !Tracks(trackers, tracker, k) ensures watchers[k] - {tracker} == watchers[k] {
      assert !Watches(watchers, tracker, k);
    }
  }

  lemma DropNothing(watchers: Watchers, trackers: Trackers, tracker: Client)
    requires Inverse(watchers, trackers) && tracker !in trackers
    ensures Dropped(watchers, watchers, tracker)
  {
    hide Inverse;
    OnlyTracked(watchers, trackers, tracker);
  }

  lemma DropEmpty(before: Watchers, filtered: Watchers, keys: set<DbKey>, empty: set<DbKey>, tracker: Client)
    requires forall k :: k in before ==> before[k].Keys != {}
    requires forall k :: k in before && k !in keys ==> before[k] - {tracker} == before[k]
    requires filtered.Keys == before.Keys
    requires forall k :: k in before ==> filtered[k] == before[k] - {tracker}
    requires forall k :: k in empty <==> k in keys && k in before && (before[k] - {tracker}).Keys == {}
    ensures Dropped(before, filtered - empty, tracker)
  {
  }

  lemma DroppedInverse(before: Watchers, after: Watchers, trackers: Trackers, tracker: Client)
    requires Inverse(before, trackers) && Dropped(before, after, tracker)
    ensures Inverse(after, trackers - {tracker})
  {
    forall t, k ensures Watches(after, t, k) <==> Tracks(trackers - {tracker}, t, k) {
      assert Watches(before, t, k) <==> Tracks(trackers, t, k);
      assert k in before && t in before[k] && t != tracker ==> t in (before[k] - {tracker}).Keys;
    }
  }

  lemma NothingHeld()
    ensures NoneEmpty(map[]) && forall t, k :: !Holds(map[], t, k)
  {
  }

  function SortedAll(lists: Lists): Lists {
    map t | t in lists :: SortDedup(lists[t])
  }

  lemma SortedLists(lists: Lists)
    requires NoneEmpty(lists)
    ensures forall t, k :: Holds(SortedAll(lists), t, k) <==> Holds(lists, t, k)
    ensures forall t :: t in SortedAll(lists) ==> SortedAll(lists)[t] != [] && Sorted(SortedAll(lists)[t])
  {
    hide Sorted;
    forall t | t in lists ensures SortDedup(lists[t]) != [] && Sorted(SortDedup(lists[t])) {
      SortDedupSorted(lists[t]);
      assert lists[t][0] in lists[t];
    }
    forall t, k ensures Holds(SortedAll(lists), t, k) <==> Holds(lists, t, k) {
      assert t in lists ==> (k in SortDedup(lists[t]) <==> k in lists[t]);
    }
  }

  lemma ReportsKeyIs(watcher: Broadcast, tracker: Client, writer: Client, key: Bytes)
    ensures forall target :: ReportsKey(watcher, tracker, writer, key, target) <==>
      target == watcher.target && !(watcher.noLoop && tracker == writer) && Matches(watcher.prefixes, key)
  {
  }

  lemma NoneReportsKey(broadcasts: Broadcasts, writer: Client, key: Bytes)
    ensures forall target :: !SomeReportsKey(broadcasts, {}, writer, key, target)
  {
  }

  lemma OneReportsKey(broadcasts: Broadcasts, from: set<Client>, tracker: Client, writer: Client, key: Bytes)
    requires tracker in broadcasts
    ensures forall target :: SomeReportsKey(broadcasts, from + {tracker}, writer, key, target) <==>
      SomeReportsKey(broadcasts, from, writer, key, target)
      || ReportsKey(broadcasts[tracker], tracker, writer, key, target)
  {
    hide ReportsKey;
    forall target
      ensures SomeReportsKey(broadcasts, from + {tracker}, writer, key, target) <==>
        SomeReportsKey(broadcasts, from, writer, key, target)
        || ReportsKey(broadcasts[tracker], tracker, writer, key, target)
    {
      if SomeReportsKey(broadcasts, from, writer, key, target) {
        var t :| t in from && t in broadcasts && ReportsKey(broadcasts[t], t, writer, key, target);
        assert t in from + {tracker};
      }
      if ReportsKey(broadcasts[tracker], tracker, writer, key, target) { assert tracker in from + {tracker}; }
    }
  }

  lemma InverseParts(watchers: Watchers, trackers: Trackers)
    requires Inverse(watchers, trackers)
    ensures NoTrackerEmpty(trackers)
  {
  }

  lemma ReportsIs(watcher: Watcher, tracker: Client, writer: Client)
    ensures forall target :: Reports(watcher, tracker, writer, target) <==>
      target == watcher.target && !(watcher.noLoop && tracker == writer)
  {
  }

  lemma NoneReports(watchers: map<Client, Watcher>, writer: Client)
    ensures forall target :: !SomeReports(watchers, {}, writer, target)
  {
  }

  lemma OneReports(watchers: map<Client, Watcher>, from: set<Client>, tracker: Client, writer: Client)
    requires tracker in watchers
    ensures forall target :: SomeReports(watchers, from + {tracker}, writer, target) <==>
      SomeReports(watchers, from, writer, target) || Reports(watchers[tracker], tracker, writer, target)
  {
    hide Reports;
    forall target
      ensures SomeReports(watchers, from + {tracker}, writer, target) <==>
        SomeReports(watchers, from, writer, target) || Reports(watchers[tracker], tracker, writer, target)
    {
      if SomeReports(watchers, from, writer, target) {
        var t :| t in from && t in watchers && Reports(watchers[t], t, writer, target);
        assert t in from + {tracker};
      }
      if Reports(watchers[tracker], tracker, writer, target) { assert tracker in from + {tracker}; }
    }
  }

  lemma ConsumedInverse(watchers: Watchers, before: Trackers, after: Trackers, tracked: DbKey)
    requires Inverse(watchers, before) && tracked in watchers && NoTrackerEmpty(after)
    requires forall t, k :: Tracks(after, t, k) <==> Tracks(before, t, k) && !(k == tracked && t in watchers[tracked])
    ensures Inverse(watchers - {tracked}, after)
  {
    hide NoTrackerEmpty;
    forall t, k ensures Watches(watchers - {tracked}, t, k) <==> Tracks(after, t, k) {
      assert Watches(watchers, t, k) <==> Tracks(before, t, k);
    }
  }

  lemma MatchesSorted(prefixes: seq<Bytes>)
    ensures forall key :: Matches(SortDedup(prefixes), key) <==> Matches(prefixes, key)
  {
    assert prefixes != [] ==> prefixes[0] in SortDedup(prefixes);
  }

  lemma TrackedInverse(watchers: Watchers, trackers: Trackers, tracker: Client, watcher: Watcher, key: DbKey)
    requires Inverse(watchers, trackers)
    ensures var entry := if key in watchers then watchers[key] else map[];
      var keys := if tracker in trackers then trackers[tracker] else {};
      Inverse(watchers[key := entry[tracker := watcher]], trackers[tracker := keys + {key}])
  {
    var entry := if key in watchers then watchers[key] else map[];
    var keys := if tracker in trackers then trackers[tracker] else {};
    var w, ts := watchers[key := entry[tracker := watcher]], trackers[tracker := keys + {key}];
    forall t, k ensures Watches(w, t, k) <==> Tracks(ts, t, k) {
      assert Watches(watchers, t, k) <==> Tracks(trackers, t, k);
      assert Watches(watchers, t, key) <==> Tracks(trackers, t, key);
      assert Watches(watchers, tracker, k) <==> Tracks(trackers, tracker, k);
    }
    assert tracker in w[key];
    assert key in ts[tracker];
  }
}
