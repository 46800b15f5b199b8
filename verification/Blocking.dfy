/**
 * Clients blocked on keys. Each key has a first-in-first-out queue of waiters;
 * the run so far says who is registered on what and since when, and the queues
 * are proved to follow it.
 */
module Blocking {
  import opened Base

  // ---- what a run means -----------------------------------------------------

  datatype Event = Registered(client: Client, keys: set<DbKey>) | Cleared(client: Client) | Removed(client: Client)

  /** The keys a client waits on and the position in the run of the registration that put it there. */
  datatype Registration = Registration(keys: set<DbKey>, since: nat)

  /** A registration replaces the client's earlier one; clearing or removing the client ends it. */
  function Registrations(run: seq<Event>): (r: map<Client, Registration>)
    ensures forall c :: c in r ==> r[c].keys != {} && r[c].since < |run|
  {
    if run == [] then map[]
    else
      var n := |run| - 1;
      var before := Registrations(run[..n]) - {run[n].client};
      if run[n].Registered? && run[n].keys != {} then before[run[n].client := Registration(run[n].keys, n)]
      else before
  }

  /** Clients that ever registered and were not removed since. */
  function Known(run: seq<Event>): (r: set<Client>)
    ensures Registrations(run).Keys <= r
  {
    if run == [] then {}
    else
      var n := |run| - 1;
      if run[n].Registered? then Known(run[..n]) + {run[n].client}
      else if run[n].Removed? then Known(run[..n]) - {run[n].client}
      else Known(run[..n])
  }

  /** The client whose current registration on the key is the oldest. */
  ghost predicate Oldest(regs: map<Client, Registration>, client: Client, key: DbKey) {
    && client in regs && key in regs[client].keys
    && forall other :: other in regs && other != client && key in regs[other].keys ==>
         regs[client].since < regs[other].since
  }

  // ---- the queues -----------------------------------------------------------

  type Queues = map<DbKey, seq<Client>>

  ghost predicate Ascending(queue: seq<Client>, regs: map<Client, Registration>) {
    && (forall i :: 0 <= i < |queue| ==> queue[i] in regs)
    && (forall i, j :: 0 <= i < j < |queue| ==> regs[queue[i]].since < regs[queue[j]].since)
  }

  /** Queues and registrations are inverse, no queue is empty, and every queue is in order of registration. */
  ghost predicate InOrder(queues: Queues, regs: map<Client, Registration>) {
    && (forall k :: k in queues ==> queues[k] != [])
    && (forall k, c :: k in queues && c in queues[k] ==> c in regs && k in regs[c].keys)
    && (forall c, k :: c in regs && k in regs[c].keys ==> k in queues && c in queues[k])
    && (forall k :: k in queues ==> Ascending(queues[k], regs))
  }

  lemma OncePerQueue(queues: Queues, regs: map<Client, Registration>, key: DbKey, i: nat, j: nat)
    requires InOrder(queues, regs) && key in queues && i < j < |queues[key]|
    ensures queues[key][i] != queues[key][j]
  {
    assert Ascending(queues[key], regs);
  }

  function Without(queue: seq<Client>, client: Client): (r: seq<Client>)
    ensures client !in r
    ensures forall c :: c in r <==> c in queue && c != client
    ensures client !in queue ==> r == queue
  {
    if queue == [] then []
    else if queue[0] == client then Without(queue[1..], client)
    else
      var r := [queue[0]] + Without(queue[1..], client);
      assert queue == [queue[0]] + queue[1..];
      r
  }

  lemma AscendingTail(queue: seq<Client>, regs: map<Client, Registration>)
    requires Ascending(queue, regs) && queue != []
    ensures queue[0] in regs && Ascending(queue[1..], regs)
    ensures forall c :: c in queue[1..] ==> c in regs && regs[queue[0]].since < regs[c].since
  {
    assert queue[0] in queue;
    forall c | c in queue[1..] ensures c in regs && regs[queue[0]].since < regs[c].since {
      var i :| 0 <= i < |queue| - 1 && queue[1..][i] == c;
      assert queue[i + 1] == c;
    }
  }

  lemma AscendingPrepend(first: Client, queue: seq<Client>, regs: map<Client, Registration>)
    requires first in regs && Ascending(queue, regs)
    requires forall c :: c in queue ==> regs[first].since < regs[c].since
    ensures Ascending([first] + queue, regs)
  {
    var all := [first] + queue;
    forall i, j | 0 <= i < j < |all|
      ensures all[i] in regs && all[j] in regs && regs[all[i]].since < regs[all[j]].since
    {
      assert all[j] == queue[j - 1];
      if i > 0 { assert all[i] == queue[i - 1]; }
    }
  }

  lemma AscendingAppend(queue: seq<Client>, last: Client, regs: map<Client, Registration>, reg: Registration)
    requires Ascending(queue, regs) && last !in queue
    requires forall c :: c in queue ==> regs[c].since < reg.since
    ensures Ascending(queue + [last], regs[last := reg])
  {
    var all := queue + [last];
    forall i, j | 0 <= i < j < |all|
      ensures all[i] in queue && regs[all[i]].since < regs[last := reg][all[j]].since
    {
      assert all[i] == queue[i];
      if j < |queue| { assert all[j] == queue[j]; }
    }
  }

  /** Keeping the others keeps their order. */
  lemma {:induction false} WithoutKeepsOrder(queue: seq<Client>, client: Client, regs: map<Client, Registration>)
    requires Ascending(queue, regs)
    ensures Ascending(Without(queue, client), regs)
  {
    hide Ascending;
    if queue == [] {
    } else {
      AscendingTail(queue, regs);
      WithoutKeepsOrder(queue[1..], client, regs);
      if queue[0] != client { AscendingPrepend(queue[0], Without(queue[1..], client), regs); }
    }
  }

  /** The order depends on the registrations of the queue's own clients only. */
  lemma AscendingFrame(queue: seq<Client>, regs: map<Client, Registration>, other: map<Client, Registration>)
    requires Ascending(queue, regs)
    requires forall i :: 0 <= i < |queue| ==> queue[i] in other && other[queue[i]] == regs[queue[i]]
    ensures Ascending(queue, other)
  {
  }

  /** `after` is `before` with the client taken out of every queue, and the queues this empties dropped. */
  ghost predicate Dequeued(before: Queues, after: Queues, client: Client) {
    && (forall k :: k in after <==> k in before && Without(before[k], client) != [])
    && (forall k :: k in after ==> after[k] == Without(before[k], client))
  }

  /** `after` is `before` with the client at the back of the queues of `keys`. */
  ghost predicate Enqueued(before: Queues, after: Queues, client: Client, keys: set<DbKey>) {
    && (forall k :: k in after <==> k in before || k in keys)
    && (forall k :: k in after ==>
          after[k] == (if k in before then before[k] else []) + (if k in keys then [client] else []))
  }

  /** A client is only in the queues of the keys it is registered on. */
  lemma OnlyThese(queues: Queues, regs: map<Client, Registration>, client: Client)
    requires InOrder(queues, regs)
    ensures forall k :: k in queues ==>
      queues[k] != [] && (!(client in regs && k in regs[client].keys) ==> client !in queues[k])
  {
  }

  ghost predicate SomeoneWaits(regs: map<Client, Registration>) {
    exists c :: c in regs
  }

  lemma WaitersIff(queues: Queues, regs: map<Client, Registration>)
    requires InOrder(queues, regs)
    requires forall c :: c in regs ==> regs[c].keys != {}
    ensures queues.Keys != {} <==> SomeoneWaits(regs)
  {
    if c :| c in regs {
      assert regs[c].keys != {};
      var k :| k in regs[c].keys;
      assert k in queues.Keys;
    }
    if queues.Keys != {} {
      var k :| k in queues.Keys;
      var c := queues[k][0];
      assert c in queues[k];
      assert c in regs;
    }
  }

  lemma DequeueNothing(queues: Queues, regs: map<Client, Registration>, client: Client)
    requires InOrder(queues, regs) && client !in regs
    ensures Dequeued(queues, queues, client)
  {
    OnlyThese(queues, regs, client);
  }

  lemma DropEmpty(before: Queues, filtered: Queues, keys: set<DbKey>, empty: set<DbKey>, client: Client)
    requires forall k :: k in before ==> before[k] != [] && (k !in keys ==> client !in before[k])
    requires filtered.Keys == before.Keys
    requires forall k :: k in before ==> filtered[k] == Without(before[k], client)
    requires forall k :: k in empty <==> k in keys && k in before && Without(before[k], client) == []
    ensures Dequeued(before, filtered - empty, client)
  {
    hide Without;
  }

  lemma DequeueInOrder(before: Queues, after: Queues, regs: map<Client, Registration>, client: Client)
    requires InOrder(before, regs) && Dequeued(before, after, client)
    ensures InOrder(after, regs - {client})
  {
    hide Ascending, Without;
    forall k | k in after ensures Ascending(after[k], regs - {client}) {
      WithoutKeepsOrder(before[k], client, regs);
      forall i | 0 <= i < |after[k]| ensures after[k][i] in regs - {client} { assert after[k][i] in after[k]; }
      AscendingFrame(after[k], regs, regs - {client});
    }
    forall c, k | c in regs - {client} && k in regs[c].keys ensures k in after && c in after[k] {
      assert c in Without(before[k], client);
    }
  }

  lemma EnqueueNone(queues: Queues, regs: map<Client, Registration>, client: Client)
    requires InOrder(queues, regs) && client !in regs
    ensures Enqueued(queues, queues, client, {})
    ensures forall k :: k in queues ==> client !in queues[k]
  {
    hide Ascending;
    OnlyThese(queues, regs, client);
    hide InOrder;
    forall k | k in queues ensures queues[k] == queues[k] + [] {}
  }

  lemma EnqueueOne(before: Queues, now: Queues, client: Client, done: set<DbKey>, key: DbKey)
    requires Enqueued(before, now, client, done) && key !in done
    requires forall k :: k in before ==> client !in before[k]
    ensures var waiters := if key in now then now[key] else [];
      client !in waiters && Enqueued(before, now[key := waiters + [client]], client, done + {key})
  {
  }

  lemma EnqueueInOrder(before: Queues, after: Queues, regs: map<Client, Registration>, client: Client,
      keys: set<DbKey>, now: nat)
    requires InOrder(before, regs) && client !in regs && Enqueued(before, after, client, keys)
    requires forall c :: c in regs ==> regs[c].since < now
    requires keys != {}
    ensures InOrder(after, regs[client := Registration(keys, now)])
  {
    hide Ascending;
    var regs' := regs[client := Registration(keys, now)];
    forall c, k | c in regs' && k in regs'[c].keys ensures k in after && c in after[k] {
      if c == client { assert after[k][|after[k]| - 1] == c; }
    }
    forall k | k in after ensures Ascending(after[k], regs') {
      AppendKeepsOrder(before, regs, client, keys, now, k);
    }
  }

  lemma AppendKeepsOrder(before: Queues, regs: map<Client, Registration>, client: Client, keys: set<DbKey>,
      now: nat, k: DbKey)
    requires InOrder(before, regs) && client !in regs
    requires forall c :: c in regs ==> regs[c].since < now
    ensures Ascending((if k in before then before[k] else []) + (if k in keys then [client] else []),
      regs[client := Registration(keys, now)])
  {
    var queue := if k in before then before[k] else [];
    if k in keys {
      AscendingAppend(queue, client, regs, Registration(keys, now));
    } else {
      AscendingFrame(queue, regs, regs[client := Registration(keys, now)]);
      assert queue + [] == queue;
    }
  }

  /** The front of a queue is the oldest registration on its key; a key without a queue has none. */
  lemma FrontIsOldest(queues: Queues, regs: map<Client, Registration>, key: DbKey, client: Client)
    requires InOrder(queues, regs)
    ensures Oldest(regs, client, key) <==> key in queues && Front(queues, key) == Some(client)
  {
    if key in queues {
      var q := queues[key];
      assert q[0] in q;
      forall other | other in regs && other != q[0] && key in regs[other].keys
        ensures regs[q[0]].since < regs[other].since
      {
        var i :| 0 <= i < |q| && q[i] == other;
      }
      assert q[0] in regs && key in regs[q[0]].keys;
      assert Oldest(regs, q[0], key);
    }
  }

  // ---- the registry ---------------------------------------------------------

  class BlockingState {
    var keyWaiters: Queues
    var clientKeys: map<Client, set<DbKey>>
    var clientNotifiers: map<Client, nat>
    var nextNotifier: nat
    ghost var run: seq<Event>

    /** The tables are what the run so far means. */
    ghost predicate Valid()
      reads this
    {
      Follows(keyWaiters, clientKeys, clientNotifiers, run)
    }

    constructor ()
      ensures Valid() && run == []
    {
      keyWaiters, clientKeys, clientNotifiers, nextNotifier, run := map[], map[], map[], 0, [];
    }

    /** Some client is waiting exactly when the table of queues is not empty. */
    method HasWaiters() returns (any: bool)
      requires Valid()
      ensures any <==> SomeoneWaits(Registrations(run))
    {
      any := keyWaiters.Keys != {};
      WaitersIff(keyWaiters, Registrations(run));
    }

    /** Drops the client from every queue it is in, and the queues this empties. */
    method Dequeue(client: Client)
      requires Valid()
      modifies this`keyWaiters, this`clientKeys
      ensures Dequeued(old(keyWaiters), keyWaiters, client)
      ensures clientKeys == old(clientKeys) - {client}
    {
      hide Ascending, Without, InOrder, Dequeued;
      ghost var before := keyWaiters;
      if client !in clientKeys {
        DequeueNothing(before, Registrations(run), client);
        assert clientKeys - {client} == clientKeys;
        return;
      }
      var keys := clientKeys[client];
      clientKeys := clientKeys - {client};
      OnlyThese(before, Registrations(run), client);
      var empty: set<DbKey> := {};
      var todo := keys;
      while todo != {}
        invariant todo <= keys && keyWaiters.Keys == before.Keys && clientKeys == old(clientKeys) - {client}
        invariant forall k :: k in before ==>
          keyWaiters[k] == if k in todo then before[k] else Without(before[k], client)
        invariant forall k :: k in empty <==> k in keys && k !in todo && k in before && Without(before[k], client) == []
      {
        var key :| key in todo;
        todo := todo - {key};
        if key in keyWaiters {
          keyWaiters := keyWaiters[key := Without(keyWaiters[key], client)];
          if keyWaiters[key] == [] {
            empty := empty + {key};
          }
        }
      }
      DropEmpty(before, keyWaiters, keys, empty, client);
      keyWaiters := keyWaiters - empty;
    }

    method Clear(client: Client)
      requires Valid()
      modifies this
      ensures Valid() && run == old(run) + [Cleared(client)]
      ensures clientNotifiers == old(clientNotifiers)
    {
      hide InOrder, Dequeued, KeysFollow;
      Dequeue(client);
      KeysAfter(old(clientKeys), Registrations(run), client, {}, 0);
      DequeueInOrder(old(keyWaiters), keyWaiters, Registrations(run), client);
      RunAfter(run, Cleared(client));
      run := run + [Cleared(client)];
    }

    method RemoveClient(client: Client)
      requires Valid()
      modifies this
      ensures Valid() && run == old(run) + [Removed(client)]
      ensures clientNotifiers == old(clientNotifiers) - {client}
    {
      hide InOrder, Dequeued, KeysFollow;
      Dequeue(client);
      KeysAfter(old(clientKeys), Registrations(run), client, {}, 0);
      DequeueInOrder(old(keyWaiters), keyWaiters, Registrations(run), client);
      clientNotifiers := clientNotifiers - {client};
      RunAfter(run, Removed(client));
      run := run + [Removed(client)];
    }

    /** The client starts waiting at the back of every queue, keeping the notifier it already had. */
    method Register(client: Client, keys: seq<DbKey>) returns (notifier: nat)
      requires Valid()
      modifies this
      ensures Valid() && run == old(run) + [Registered(client, set k | k in keys)]
      ensures client in clientNotifiers && notifier == clientNotifiers[client]
      ensures clientNotifiers == old(clientNotifiers)[client := notifier]
      ensures client in old(clientNotifiers) ==> clientNotifiers == old(clientNotifiers)
    {
      hide InOrder, Dequeued, Enqueued, Registrations, Known, KeysFollow;
      Dequeue(client);
      ghost var regs, dequeued := Registrations(run) - {client}, keyWaiters;
      DequeueInOrder(old(keyWaiters), dequeued, Registrations(run), client);
      if client !in clientNotifiers {
        clientNotifiers := clientNotifiers[client := nextNotifier];
        nextNotifier := nextNotifier + 1;
      }
      notifier := clientNotifiers[client];
      var keySet := set k | k in keys;
      KeysAfter(old(clientKeys), Registrations(run), client, keySet, |run|);
      AppendWaiter(client, keySet, regs);
      RunAfter(run, Registered(client, keySet));
      if keySet != {} {
        EnqueueInOrder(dequeued, keyWaiters, regs, client, keySet, |run|);
        clientKeys := clientKeys[client := keySet];
      }
      run := run + [Registered(client, keySet)];
    }

    method AppendWaiter(client: Client, keys: set<DbKey>, ghost regs: map<Client, Registration>)
      requires InOrder(keyWaiters, regs) && client !in regs
      modifies this`keyWaiters
      ensures Enqueued(old(keyWaiters), keyWaiters, client, keys)
      ensures keys == {} ==> keyWaiters == old(keyWaiters)
    {
      hide Ascending, Enqueued, InOrder;
      ghost var before := keyWaiters;
      var todo := keys;
      EnqueueNone(before, regs, client);
      assert keys - todo == {};
      while todo != {}
        invariant todo <= keys
        invariant Enqueued(before, keyWaiters, client, keys - todo)
        invariant todo == keys ==> keyWaiters == before
      {
        var key :| key in todo;
        var waiters := if key in keyWaiters then keyWaiters[key] else [];
        EnqueueOne(before, keyWaiters, client, keys - todo, key);
        if client !in waiters {
          waiters := waiters + [client];
        }
        keyWaiters := keyWaiters[key := waiters];
        assert keys - (todo - {key}) == (keys - todo) + {key};
        todo := todo - {key};
      }
      assert keys - todo == keys;
    }

    /** Wakes, for each written key, the client whose registration on it is oldest, and no other. */
    method NotifyKeys(db: nat, keys: seq<Bytes>) returns (woken: map<Client, nat>)
      requires Valid()
      ensures forall c :: c in woken <==>
        exists i :: 0 <= i < |keys| && Oldest(Registrations(run), c, DbKey(db, keys[i]))
      ensures forall c :: c in woken ==> c in clientNotifiers && woken[c] == clientNotifiers[c]
    {
      hide InOrder, Oldest;
      ghost var regs := Registrations(run);
      var notified: set<Client> := {};
      for n := 0 to |keys|
        invariant forall c :: c in notified <==> exists i :: 0 <= i < n && Oldest(regs, c, DbKey(db, keys[i]))
      {
        var key := DbKey(db, keys[n]);
        forall c ensures Oldest(regs, c, key) <==> key in keyWaiters && Front(keyWaiters, key) == Some(c) {
          FrontIsOldest(keyWaiters, regs, key, c);
        }
        if key in keyWaiters {
          var waiters := keyWaiters[key];
          if waiters != [] {
            notified := notified + {waiters[0]};
          }
        }
      }
      forall c | c in notified ensures c in clientNotifiers {
        var i :| 0 <= i < |keys| && Oldest(regs, c, DbKey(db, keys[i]));
        OldestIsKnown(run, c, DbKey(db, keys[i]));
      }
      woken := map c | c in notified && c in clientNotifiers :: clientNotifiers[c];
    }
  }

  ghost predicate KeysFollow(clientKeys: map<Client, set<DbKey>>, regs: map<Client, Registration>) {
    && clientKeys.Keys == regs.Keys
    && forall c :: c in regs ==> clientKeys[c] == regs[c].keys
  }

  lemma KeysAfter(clientKeys: map<Client, set<DbKey>>, regs: map<Client, Registration>, client: Client,
      keys: set<DbKey>, now: nat)
    requires KeysFollow(clientKeys, regs)
    ensures KeysFollow(clientKeys - {client}, regs - {client})
    ensures KeysFollow((clientKeys - {client})[client := keys], (regs - {client})[client := Registration(keys, now)])
  {
  }

  ghost predicate Follows(keyWaiters: Queues, clientKeys: map<Client, set<DbKey>>, notifiers: map<Client, nat>,
      run: seq<Event>)
  {
    && InOrder(keyWaiters, Registrations(run))
    && KeysFollow(clientKeys, Registrations(run))
    && notifiers.Keys == Known(run)
  }

  lemma RunAfter(run: seq<Event>, event: Event)
    ensures var before := Registrations(run) - {event.client};
      Registrations(run + [event]) == if event.Registered? && event.keys != {}
        then before[event.client := Registration(event.keys, |run|)] else before
    ensures Known(run + [event]) == if event.Registered? then Known(run) + {event.client}
      else if event.Removed? then Known(run) - {event.client} else Known(run)
  {
    assert (run + [event])[..|run|] == run;
  }

  lemma OldestIsKnown(run: seq<Event>, client: Client, key: DbKey)
    requires Oldest(Registrations(run), client, key)
    ensures client in Known(run)
  {
  }

  function Front(queues: Queues, key: DbKey): Option<Client>
    requires key in queues
  {
    if queues[key] == [] then None else Some(queues[key][0])
  }
}
