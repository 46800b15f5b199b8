/**
 * Publish/subscribe: three two-way subscription indexes and one bounded
 * delivery queue per registered client. The run so far says which messages
 * were addressed to a registration and which of them were enqueued.
 */
module PubSub {
  import opened Base

  // ---- subscription indexes -------------------------------------------------

  /** Who subscribes to a name, and what a client subscribes to. */
  datatype Index = Index(byName: map<Bytes, set<Client>>, byClient: map<Client, set<Bytes>>)

  const EMPTY: Index := Index(map[], map[])

  predicate Subscribed(index: Index, client: Client, name: Bytes) {
    name in index.byName && client in index.byName[name]
  }

  predicate Listed(index: Index, client: Client, name: Bytes) {
    client in index.byClient && name in index.byClient[client]
  }

  /** The two maps are exact inverses and hold no empty set. */
  ghost predicate Inverse(index: Index) {
    && (forall c, n :: Subscribed(index, c, n) <==> Listed(index, c, n))
    && (forall n :: n in index.byName ==> index.byName[n] != {})
    && (forall c :: c in index.byClient ==> index.byClient[c] != {})
  }

  function Subscribers(index: Index, name: Bytes): set<Client> {
    if name in index.byName then index.byName[name] else {}
  }

  function Names(index: Index, client: Client): set<Bytes> {
    if client in index.byClient then index.byClient[client] else {}
  }

  function Join(index: Index, client: Client, name: Bytes): Index {
    Index(index.byName[name := Subscribers(index, name) + {client}],
          index.byClient[client := Names(index, client) + {name}])
  }

  function Leave(index: Index, client: Client, name: Bytes): Index {
    Index(Take(index.byName, name, client), Take(index.byClient, client, name))
  }

  /** Takes `x` out of the set at `k`; a set left empty goes with its key. */
  function Take<K, V>(m: map<K, set<V>>, k: K, x: V): map<K, set<V>> {
    if k !in m then m
    else if m[k] - {x} == {} then m - {k}
    else m[k := m[k] - {x}]
  }

  lemma JoinInverse(index: Index, client: Client, name: Bytes)
    requires Inverse(index)
    ensures Inverse(Join(index, client, name))
    ensures forall c, n :: Subscribed(Join(index, client, name), c, n) <==>
      Subscribed(index, c, n) || (c == client && n == name)
  {
    var after := Join(index, client, name);
    forall c, n ensures Subscribed(after, c, n) <==> Subscribed(index, c, n) || (c == client && n == name) {}
    forall c, n ensures Listed(after, c, n) <==> Listed(index, c, n) || (c == client && n == name) {}
  }

  lemma LeaveInverse(index: Index, client: Client, name: Bytes)
    requires Inverse(index)
    ensures Inverse(Leave(index, client, name))
    ensures forall c, n :: Subscribed(Leave(index, client, name), c, n) <==>
      Subscribed(index, c, n) && !(c == client && n == name)
  {
    hide Take;
    TakeOne(index.byName, name, client);
    TakeOne(index.byClient, client, name);
    var after := Leave(index, client, name);
    forall c, n ensures Subscribed(after, c, n) <==> Subscribed(index, c, n) && !(c == client && n == name) {}
    forall c, n ensures Listed(after, c, n) <==> Listed(index, c, n) && !(c == client && n == name) {}
  }

  /** Every subscription of one client goes, and nobody else's. */
  method RemoveFrom(index: Index, client: Client) returns (after: Index)
    requires Inverse(index)
    ensures Inverse(after)
    ensures forall c, n :: Subscribed(after, c, n) <==> Subscribed(index, c, n) && c != client
  {
    hide Take;
    if client !in index.byClient {
      after := index;
      forall c, n ensures Subscribed(index, c, n) ==> c != client {
        assert Subscribed(index, c, n) <==> Listed(index, c, n);
      }
      return;
    }
    var names := index.byClient[client];
    var byName := index.byName;
    var todo := names;
    while todo != {}
      invariant todo <= names
      invariant forall n :: n in byName ==> byName[n] != {}
      invariant forall c, n :: (n in byName && c in byName[n]) <==>
        Subscribed(index, c, n) && !(c == client && n in names && n !in todo)
    {
      var name :| name in todo;
      TakeOne(byName, name, client);
      byName := Take(byName, name, client);
      todo := todo - {name};
    }
    after := Index(byName, index.byClient - {client});
    forall c, n ensures Subscribed(after, c, n) <==> Subscribed(index, c, n) && c != client {
      assert Subscribed(index, c, n) <==> Listed(index, c, n);
    }
    forall c, n ensures Subscribed(after, c, n) <==> Listed(after, c, n) {
      assert Subscribed(index, c, n) <==> Listed(index, c, n);
    }
  }

  lemma TakeOne<K, V>(m: map<K, set<V>>, k: K, x: V)
    requires forall j :: j in m ==> m[j] != {}
    ensures forall j :: j in Take(m, k, x) ==> Take(m, k, x)[j] != {}
    ensures forall j, y :: (j in Take(m, k, x) && y in Take(m, k, x)[j]) <==> j in m && y in m[j] && !(j == k && y == x)
  {
    forall j, y
      ensures (j in Take(m, k, x) && y in Take(m, k, x)[j]) <==> j in m && y in m[j] && !(j == k && y == x)
    {
      assert k in m && y in m[k] && y != x ==> y in m[k] - {x};
    }
  }

  // ---- what a run means -----------------------------------------------------

  datatype Message =
    | Message(channel: Bytes, payload: Bytes)
    | SMessage(channel: Bytes, payload: Bytes)
    | PMessage(pattern: Bytes, channel: Bytes, payload: Bytes)
    | Invalidate(keys: seq<Bytes>)
    | TrackingRedirectBroken(redirect: Client)

  /** A registration is named by the delivery queue it opens. */
  datatype Event =
    | Registered(client: Client, queue: nat)
    | Sent(client: Client, message: Message, enqueued: bool)
    | Removed(client: Client)

  /** The registration each client currently has. */
  function Current(run: seq<Event>): map<Client, nat> {
    if run == [] then map[]
    else
      var n := |run| - 1;
      match run[n]
      case Registered(c, queue) => Current(run[..n])[c := queue]
      case Removed(c) => Current(run[..n]) - {c}
      case Sent(_, _, _) => Current(run[..n])
  }

  predicate ToQueue(current: map<Client, nat>, event: Event, queue: nat) {
    event.Sent? && event.client in current && current[event.client] == queue
  }

  /** Every message sent to the client while this registration was its current one, in order. */
  function Addressed(run: seq<Event>, queue: nat): seq<Message> {
    if run == [] then []
    else
      var n := |run| - 1;
      Addressed(run[..n], queue) + if ToQueue(Current(run[..n]), run[n], queue) then [run[n].message] else []
  }

  /** Those of them that were put in the queue. */
  function Given(run: seq<Event>, queue: nat): seq<Message> {
    if run == [] then []
    else
      var n := |run| - 1;
      Given(run[..n], queue)
      + if ToQueue(Current(run[..n]), run[n], queue) && run[n].enqueued then [run[n].message] else []
  }

  lemma RunAfter(run: seq<Event>, event: Event)
    ensures event.Registered? ==> Current(run + [event]) == Current(run)[event.client := event.queue]
    ensures event.Removed? ==> Current(run + [event]) == Current(run) - {event.client}
    ensures event.Sent? ==> Current(run + [event]) == Current(run)
  {
    assert (run + [event])[..|run|] == run;
  }

  lemma QueueAfter(run: seq<Event>, event: Event, queue: nat)
    ensures Addressed(run + [event], queue) ==
      Addressed(run, queue) + if ToQueue(Current(run), event, queue) then [event.message] else []
    ensures Given(run + [event], queue) ==
      Given(run, queue) + if ToQueue(Current(run), event, queue) && event.enqueued then [event.message] else []
  {
    assert (run + [event])[..|run|] == run;
  }

  // ---- delivery queues ------------------------------------------------------

  /** A bounded channel; `open` until its receiver is dropped. */
  datatype Queue = Queue(capacity: nat, pending: seq<Message>, open: bool)

  type Senders = map<Client, nat>
  type Queues = map<nat, Queue>
  type Takings = map<nat, seq<Message>>

  /** A client that still has its sender was given everything addressed to its current registration. */
  ghost predicate SendersOk(senders: Senders, run: seq<Event>) {
    forall c :: c in senders ==>
      && c in Current(run) && Current(run)[c] == senders[c]
      && Given(run, senders[c]) == Addressed(run, senders[c])
  }

  /** Registrations use distinct queues below `next`. */
  ghost predicate CurrentOk(current: map<Client, nat>, next: nat) {
    && (forall c :: c in current ==> current[c] < next)
    && (forall c, d :: c in current && d in current && current[c] == current[d] ==> c == d)
  }

  /** What was enqueued is what was received followed by what is pending, and a prefix of what was addressed. */
  ghost predicate QueueOk(queues: Queues, taken: Takings, next: nat, run: seq<Event>, queue: nat) {
    && (queue in queues <==> queue < next)
    && (queue in taken <==> queue < next)
    && Given(run, queue) <= Addressed(run, queue)
    && (queue >= next ==> Addressed(run, queue) == [])
    && (queue < next ==>
          && taken[queue] + queues[queue].pending == Given(run, queue)
          && |queues[queue].pending| <= queues[queue].capacity && queues[queue].capacity >= 1)
  }

  ghost predicate Delivery(senders: Senders, queues: Queues, taken: Takings, next: nat, run: seq<Event>) {
    && SendersOk(senders, run)
    && CurrentOk(Current(run), next)
    && forall queue: nat :: QueueOk(queues, taken, next, run, queue)
  }

  lemma NothingSentYet()
    ensures Delivery(map[], map[], map[], 0, [])
  {
  }

  lemma SendOk(senders: Senders, queues: Queues, taken: Takings, next: nat, run: seq<Event>, client: Client, m: Message)
    requires Delivery(senders, queues, taken, next, run) && client in senders
    ensures senders[client] in queues
    ensures var id := senders[client]; var q := queues[id];
      |q.pending| < q.capacity ==>
      Delivery(senders, queues[id := q.(pending := q.pending + [m])], taken, next, run + [Sent(client, m, true)])
  {
    var id := senders[client];
    assert QueueOk(queues, taken, next, run, id);
    var q := queues[id];
    if |q.pending| < q.capacity {
      var event := Sent(client, m, true);
      var after := queues[id := q.(pending := q.pending + [m])];
      RunAfter(run, event);
      forall c | c in senders
        ensures Given(run + [event], senders[c]) == Addressed(run + [event], senders[c])
      {
        QueueAfter(run, event, senders[c]);
      }
      forall queue: nat ensures QueueOk(after, taken, next, run + [event], queue) {
        assert QueueOk(queues, taken, next, run, queue);
        QueueAfter(run, event, queue);
        if queue == id { assert (taken[id] + q.pending) + [m] == taken[id] + (q.pending + [m]); }
      }
    }
  }

  lemma SendFails(senders: Senders, queues: Queues, taken: Takings, next: nat, run: seq<Event>, client: Client,
      m: Message)
    requires Delivery(senders, queues, taken, next, run)
    ensures Delivery(senders - {client}, queues, taken, next, run + [Sent(client, m, false)])
  {
    var event := Sent(client, m, false);
    RunAfter(run, event);
    forall c | c in senders && c != client
      ensures Given(run + [event], senders[c]) == Addressed(run + [event], senders[c])
    {
      QueueAfter(run, event, senders[c]);
    }
    forall queue: nat ensures QueueOk(queues, taken, next, run + [event], queue) {
      assert QueueOk(queues, taken, next, run, queue);
      QueueAfter(run, event, queue);
    }
  }

  lemma RegisterOk(senders: Senders, queues: Queues, taken: Takings, next: nat, run: seq<Event>, client: Client,
      capacity: nat)
    requires Delivery(senders, queues, taken, next, run) && capacity >= 1
    ensures Delivery(senders[client := next], queues[next := Queue(capacity, [], true)], taken[next := []], next + 1,
      run + [Registered(client, next)])
  {
    var event := Registered(client, next);
    RunAfter(run, event);
    assert QueueOk(queues, taken, next, run, next);
    QueueAfter(run, event, next);
    forall c | c in senders
      ensures Given(run + [event], senders[c]) == Addressed(run + [event], senders[c])
    {
      QueueAfter(run, event, senders[c]);
    }
    var after, taken', next' := queues[next := Queue(capacity, [], true)], taken[next := []], next + 1;
    forall queue: nat ensures QueueOk(after, taken', next', run + [event], queue) {
      assert QueueOk(queues, taken, next, run, queue);
      QueueAfter(run, event, queue);
    }
  }

  lemma RemoveOk(senders: Senders, queues: Queues, taken: Takings, next: nat, run: seq<Event>, client: Client)
    requires Delivery(senders, queues, taken, next, run)
    ensures Delivery(senders - {client}, queues, taken, next, run + [Removed(client)])
  {
    var event := Removed(client);
    RunAfter(run, event);
    forall c | c in senders && c != client
      ensures Given(run + [event], senders[c]) == Addressed(run + [event], senders[c])
    {
      QueueAfter(run, event, senders[c]);
    }
    forall queue: nat ensures QueueOk(queues, taken, next, run + [event], queue) {
      assert QueueOk(queues, taken, next, run, queue);
      QueueAfter(run, event, queue);
    }
  }

  lemma ReceiveOk(senders: Senders, queues: Queues, taken: Takings, next: nat, run: seq<Event>, id: nat)
    requires Delivery(senders, queues, taken, next, run) && id in queues && queues[id].pending != []
    ensures id in taken
    ensures var q := queues[id];
      Delivery(senders, queues[id := q.(pending := q.pending[1..])], taken[id := taken[id] + [q.pending[0]]], next, run)
  {
    assert QueueOk(queues, taken, next, run, id);
    var q := queues[id];
    var after, taken' := queues[id := q.(pending := q.pending[1..])], taken[id := taken[id] + [q.pending[0]]];
    forall queue: nat ensures QueueOk(after, taken', next, run, queue) {
      assert QueueOk(queues, taken, next, run, queue);
      if queue == id { assert taken[id] + q.pending == (taken[id] + [q.pending[0]]) + q.pending[1..]; }
    }
  }

  lemma CloseOk(senders: Senders, queues: Queues, taken: Takings, next: nat, run: seq<Event>, id: nat)
    requires Delivery(senders, queues, taken, next, run) && id in queues
    ensures Delivery(senders, queues[id := queues[id].(open := false)], taken, next, run)
  {
    var after := queues[id := queues[id].(open := false)];
    forall queue: nat ensures QueueOk(after, taken, next, run, queue) {
      assert QueueOk(queues, taken, next, run, queue);
    }
  }

  /** What a client received within a registration is a gap-free prefix of what was addressed to it. */
  lemma ReceivedIsPrefix(senders: Senders, queues: Queues, taken: Takings, next: nat, run: seq<Event>, id: nat)
    requires Delivery(senders, queues, taken, next, run) && id in queues
    ensures id in taken && taken[id] <= Given(run, id) <= Addressed(run, id)
    ensures Given(run, id) == taken[id] + queues[id].pending
  {
    assert QueueOk(queues, taken, next, run, id);
  }

  // ---- publishing -----------------------------------------------------------

  datatype Target = Target(client: Client, message: Message)

  /** Whom a run of sends addressed, with what. */
  function Targets(sends: seq<Event>): (r: set<Target>)
    requires forall i :: 0 <= i < |sends| ==> sends[i].Sent?
  {
    set i | 0 <= i < |sends| :: Target(sends[i].client, sends[i].message)
  }

  function Enqueued(sends: seq<Event>): nat
    requires forall i :: 0 <= i < |sends| ==> sends[i].Sent?
  {
    if sends == [] then 0
    else Enqueued(sends[..|sends| - 1]) + if sends[|sends| - 1].enqueued then 1 else 0
  }

  /** `sends` are sends to exactly the given targets, once each, `count` of them enqueued. */
  ghost predicate Delivers(sends: seq<Event>, targets: set<Target>, count: nat) {
    && (forall i :: 0 <= i < |sends| ==> sends[i].Sent?)
    && Targets(sends) == targets && |sends| == |targets|
    && count == Enqueued(sends)
  }

  lemma DeliversOne(sends: seq<Event>, targets: set<Target>, count: nat, client: Client, m: Message, ok: bool)
    requires Delivers(sends, targets, count) && Target(client, m) !in targets
    ensures Delivers(sends + [Sent(client, m, ok)], targets + {Target(client, m)}, count + if ok then 1 else 0)
  {
    var all := sends + [Sent(client, m, ok)];
    assert all[..|sends|] == sends;
    forall t ensures t in Targets(all) <==> t in Targets(sends) || t == Target(client, m) {
      if t in Targets(sends) {
        var i :| 0 <= i < |sends| && t == Target(sends[i].client, sends[i].message);
        assert t == Target(all[i].client, all[i].message);
      }
      assert Target(all[|sends|].client, all[|sends|].message) == Target(client, m);
    }
  }

  lemma DeliversNone()
    ensures Delivers([], {}, 0)
  {
  }

  // ---- the registry ---------------------------------------------------------

  /** Whether a pattern matches a channel. */
  type Glob = (Bytes, Bytes) -> bool

  function DirectTargets(subscribers: set<Client>, m: Message): set<Target> {
    set c | c in subscribers :: Target(c, m)
  }

  function PatternTargets(index: Index, from: set<Bytes>, channel: Bytes, payload: Bytes): set<Target> {
    set p, c | p in from && p in index.byName && c in index.byName[p] :: Target(c, PMessage(p, channel, payload))
  }

  function Matching(index: Index, glob: Glob, channel: Bytes): set<Bytes> {
    set p | p in index.byName && glob(p, channel)
  }

  class PubSubState {
    var channels: Index
    var shardChannels: Index
    var patterns: Index
    var subscriberTx: Senders
    var queues: Queues
    var nextQueue: nat
    var hardLimit: nat
    ghost var taken: Takings
    ghost var run: seq<Event>

    ghost predicate Valid()
      reads this
    {
      && Inverse(channels) && Inverse(shardChannels) && Inverse(patterns)
      && Delivery(subscriberTx, queues, taken, nextQueue, run)
    }

    constructor (limit: nat)
      ensures Valid() && channels == shardChannels == patterns == EMPTY && run == [] && hardLimit == limit
    {
      hide Delivery;
      NothingSentYet();
      channels, shardChannels, patterns := EMPTY, EMPTY, EMPTY;
      subscriberTx, queues, taken, nextQueue, run := map[], map[], map[], 0, [];
      hardLimit := limit;
    }

    method SetQueueLimit(limit: nat)
      requires Valid()
      modifies this`hardLimit
      ensures Valid() && hardLimit == limit
    {
      hardLimit := limit;
    }

    /** A fresh, empty queue; a client that registers again leaves its old queue without a sender. */
    method RegisterClient(client: Client) returns (queue: nat)
      requires Valid()
      modifies this`subscriberTx, this`queues, this`nextQueue, this`taken, this`run
      ensures Valid() && run == old(run) + [Registered(client, queue)]
      ensures queue !in old(queues)
      ensures queues == old(queues)[queue := Queue(if hardLimit > 1 then hardLimit else 1, [], true)]
      ensures subscriberTx == old(subscriberTx)[client := queue]
    {
      hide Inverse, Delivery;
      var capacity := if hardLimit > 1 then hardLimit else 1;
      queue := nextQueue;
      NextIsFresh(subscriberTx, queues, taken, nextQueue, run);
      RegisterOk(subscriberTx, queues, taken, nextQueue, run, client, capacity);
      queues := queues[queue := Queue(capacity, [], true)];
      subscriberTx := subscriberTx[client := queue];
      nextQueue := nextQueue + 1;
      taken := taken[queue := []];
      run := run + [Registered(client, queue)];
    }

    function Total(client: Client): nat
      reads this
    {
      |Names(channels, client)| + |Names(patterns, client)| + |Names(shardChannels, client)|
    }

    method SubscribeChannel(client: Client, name: Bytes) returns (total: nat)
      requires Valid()
      modifies this`channels
      ensures Valid() && total == Total(client)
      ensures forall c, n :: Subscribed(channels, c, n) <==>
        Subscribed(old(channels), c, n) || (c == client && n == name)
    {
      hide Inverse, Delivery, Join;
      JoinInverse(channels, client, name);
      channels := Join(channels, client, name);
      total := Total(client);
    }

    method SubscribeShardChannel(client: Client, name: Bytes) returns (total: nat)
      requires Valid()
      modifies this`shardChannels
      ensures Valid() && total == Total(client)
      ensures forall c, n :: Subscribed(shardChannels, c, n) <==>
        Subscribed(old(shardChannels), c, n) || (c == client && n == name)
    {
      hide Inverse, Delivery, Join;
      JoinInverse(shardChannels, client, name);
      shardChannels := Join(shardChannels, client, name);
      total := Total(client);
    }

    method SubscribePattern(client: Client, pattern: Bytes) returns (total: nat)
      requires Valid()
      modifies this`patterns
      ensures Valid() && total == Total(client)
      ensures forall c, n :: Subscribed(patterns, c, n) <==>
        Subscribed(old(patterns), c, n) || (c == client && n == pattern)
    {
      hide Inverse, Delivery, Join;
      JoinInverse(patterns, client, pattern);
      patterns := Join(patterns, client, pattern);
      total := Total(client);
    }

    method UnsubscribeChannel(client: Client, name: Bytes) returns (total: nat)
      requires Valid()
      modifies this`channels
      ensures Valid() && total == Total(client)
      ensures forall c, n :: Subscribed(channels, c, n) <==>
        Subscribed(old(channels), c, n) && !(c == client && n == name)
    {
      hide Inverse, Delivery, Leave;
      LeaveInverse(channels, client, name);
      channels := Leave(channels, client, name);
      total := Total(client);
    }

    method UnsubscribeShardChannel(client: Client, name: Bytes) returns (total: nat)
      requires Valid()
      modifies this`shardChannels
      ensures Valid() && total == Total(client)
      ensures forall c, n :: Subscribed(shardChannels, c, n) <==>
        Subscribed(old(shardChannels), c, n) && !(c == client && n == name)
    {
      hide Inverse, Delivery, Leave;
      LeaveInverse(shardChannels, client, name);
      shardChannels := Leave(shardChannels, client, name);
      total := Total(client);
    }

    method UnsubscribePattern(client: Client, pattern: Bytes) returns (total: nat)
      requires Valid()
      modifies this`patterns
      ensures Valid() && total == Total(client)
      ensures forall c, n :: Subscribed(patterns, c, n) <==>
        Subscribed(old(patterns), c, n) && !(c == client && n == pattern)
    {
      hide Inverse, Delivery, Leave;
      LeaveInverse(patterns, client, pattern);
      patterns := Leave(patterns, client, pattern);
      total := Total(client);
    }

    /** Enqueues when the client has a sender and its queue is open and has room; otherwise the sender is dropped. */
    method SendToClient(client: Client, m: Message) returns (ok: bool)
      requires Valid()
      modifies this`subscriberTx, this`queues, this`run
      ensures Valid() && run == old(run) + [Sent(client, m, ok)]
      ensures ok ==> client in old(subscriberTx) && old(subscriberTx)[client] in old(queues)
      ensures ok <==> client in old(subscriberTx) && Accepts(old(queues), old(subscriberTx)[client])
      ensures subscriberTx == if ok then old(subscriberTx) else old(subscriberTx) - {client}
      ensures queues == if ok then Appended(old(queues), old(subscriberTx)[client], m) else old(queues)
    {
      hide Inverse, Delivery;
      if client !in subscriberTx {
        SendFails(subscriberTx, queues, taken, nextQueue, run, client, m);
        assert subscriberTx - {client} == subscriberTx;
        run := run + [Sent(client, m, false)];
        return false;
      }
      SendOk(subscriberTx, queues, taken, nextQueue, run, client, m);
      SendFails(subscriberTx, queues, taken, nextQueue, run, client, m);
      var id := subscriberTx[client];
      var queue := queues[id];
      ok := queue.open && |queue.pending| < queue.capacity;
      if ok {
        queues := queues[id := queue.(pending := queue.pending + [m])];
      } else {
        subscriberTx := subscriberTx - {client};
      }
      run := run + [Sent(client, m, ok)];
    }

    /** Sends one message to each client. */
    method SendAll(clients: set<Client>, m: Message) returns (count: nat, ghost sends: seq<Event>)
      requires Valid()
      modifies this`subscriberTx, this`queues, this`run
      ensures Valid() && run == old(run) + sends && Delivers(sends, DirectTargets(clients, m), count)
    {
      hide Inverse, Delivery, Delivers, DirectTargets;
      count, sends := 0, [];
      var todo := clients;
      DeliversNone();
      NoTargets(m);
      assert clients - todo == {};
      while todo != {}
        invariant Valid() && todo <= clients
        invariant run == old(run) + sends && Delivers(sends, DirectTargets(clients - todo, m), count)
      {
        var client :| client in todo;
        var ok := SendToClient(client, m);
        OneTarget(clients - todo, client, m);
        DeliversOne(sends, DirectTargets(clients - todo, m), count, client, m, ok);
        sends := sends + [Sent(client, m, ok)];
        assert clients - (todo - {client}) == (clients - todo) + {client};
        todo := todo - {client};
        if ok {
          count := count + 1;
        }
      }
      assert clients - todo == clients;
    }

    /**
     * Each subscriber of the channel and of each matching pattern is sent the message once; the result counts
     * those enqueued.
     */
    method Publish(channel: Bytes, payload: Bytes, glob: Glob) returns (receivers: nat, ghost sends: seq<Event>)
      requires Valid()
      modifies this`subscriberTx, this`queues, this`run
      ensures Valid() && run == old(run) + sends
      ensures Delivers(sends, DirectTargets(Subscribers(channels, channel), Message(channel, payload))
        + PatternTargets(patterns, Matching(patterns, glob, channel), channel, payload), receivers)
    {
      hide Inverse, Delivery, Delivers, DirectTargets, PatternTargets;
      receivers, sends := SendAll(Subscribers(channels, channel), Message(channel, payload));
      ghost var direct := DirectTargets(Subscribers(channels, channel), Message(channel, payload));
      var matching := Matching(patterns, glob, channel);
      if patterns.byName.Keys != {} {
        var todo := matching;
        NoPatternTargets(patterns, channel, payload);
        assert matching - todo == {};
        assert direct + {} == direct;
        while todo != {}
          invariant Valid() && todo <= matching && run == old(run) + sends
          invariant Delivers(sends, direct + PatternTargets(patterns, matching - todo, channel, payload), receivers)
        {
          var pattern :| pattern in todo;
          var m := PMessage(pattern, channel, payload);
          var count, more := SendAll(patterns.byName[pattern], m);
          ghost var done := matching - todo;
          OnePattern(patterns, done, pattern, channel, payload, Subscribers(channels, channel));
          DeliversJoin(sends, direct + PatternTargets(patterns, done, channel, payload), receivers,
            more, DirectTargets(patterns.byName[pattern], m), count);
          assert matching - (todo - {pattern}) == done + {pattern};
          todo := todo - {pattern};
          ConcatSends(old(run), sends, more);
          sends := sends + more;
          receivers := receivers + count;
        }
        assert matching - todo == matching;
      } else {
        NoPatternTargets(patterns, channel, payload);
        assert matching == {};
        assert direct + {} == direct;
      }
    }

    method PublishShard(channel: Bytes, payload: Bytes) returns (receivers: nat, ghost sends: seq<Event>)
      requires Valid()
      modifies this`subscriberTx, this`queues, this`run
      ensures Valid() && run == old(run) + sends
      ensures Delivers(sends, DirectTargets(Subscribers(shardChannels, channel), SMessage(channel, payload)), receivers)
    {
      receivers, sends := SendAll(Subscribers(shardChannels, channel), SMessage(channel, payload));
    }

    /** Leaves every subscription and keeps the delivery queue. */
    method UnsubscribeAll(client: Client)
      requires Valid()
      modifies this`channels, this`shardChannels, this`patterns
      ensures Valid()
      ensures forall c, n :: Subscribed(channels, c, n) <==> Subscribed(old(channels), c, n) && c != client
      ensures forall c, n :: Subscribed(shardChannels, c, n) <==> Subscribed(old(shardChannels), c, n) && c != client
      ensures forall c, n :: Subscribed(patterns, c, n) <==> Subscribed(old(patterns), c, n) && c != client
    {
      hide Delivery, Subscribed, Leave;
      channels := LeaveAll(channels, client);
      shardChannels := LeaveAll(shardChannels, client);
      patterns := LeaveAll(patterns, client);
    }

    /** A disconnected client has no subscription, no sender and no registration. */
    method RemoveClient(client: Client)
      requires Valid()
      modifies this
      ensures Valid() && run == old(run) + [Removed(client)]
      ensures forall c, n :: Subscribed(channels, c, n) <==> Subscribed(old(channels), c, n) && c != client
      ensures forall c, n :: Subscribed(shardChannels, c, n) <==> Subscribed(old(shardChannels), c, n) && c != client
      ensures forall c, n :: Subscribed(patterns, c, n) <==> Subscribed(old(patterns), c, n) && c != client
      ensures subscriberTx == old(subscriberTx) - {client} && queues == old(queues) && hardLimit == old(hardLimit)
    {
      hide Inverse, Delivery, Subscribed;
      channels := RemoveFrom(channels, client);
      shardChannels := RemoveFrom(shardChannels, client);
      patterns := RemoveFrom(patterns, client);
      RemoveOk(subscriberTx, queues, taken, nextQueue, run, client);
      subscriberTx := subscriberTx - {client};
      run := run + [Removed(client)];
    }

    /** The receiving end takes everything pending, in order. */
    method Drain(id: nat) returns (out: seq<Message>)
      requires Valid() && id in queues
      modifies this`queues, this`taken
      ensures Valid() && out == old(queues)[id].pending
      ensures queues == old(queues)[id := old(queues)[id].(pending := [])]
      ensures id in old(taken) && taken == old(taken)[id := old(taken)[id] + out]
    {
      hide Inverse, Delivery;
      ReceivedIsPrefix(subscriberTx, queues, taken, nextQueue, run, id);
      out := [];
      assert taken[id] + out == taken[id];
      while queues[id].pending != []
        invariant id in queues && id in old(taken) && Valid()
        invariant out + queues[id].pending == old(queues)[id].pending
        invariant queues == old(queues)[id := old(queues)[id].(pending := queues[id].pending)]
        invariant taken == old(taken)[id := old(taken)[id] + out]
        decreases |queues[id].pending|
      {
        ReceiveOk(subscriberTx, queues, taken, nextQueue, run, id);
        var m := queues[id].pending[0];
        assert taken[id] + [m] == old(taken)[id] + (out + [m]);
        taken := taken[id := taken[id] + [m]];
        out := out + [m];
        queues := queues[id := queues[id].(pending := queues[id].pending[1..])];
      }
    }

    /** The receiving end goes away; the next send finds the queue closed. */
    method DropReceiver(id: nat)
      requires Valid() && id in queues
      modifies this`queues
      ensures Valid() && queues == old(queues)[id := old(queues)[id].(open := false)]
    {
      hide Inverse, Delivery;
      CloseOk(subscriberTx, queues, taken, nextQueue, run, id);
      queues := queues[id := queues[id].(open := false)];
    }
  }

  /** Unsubscribes from each listed name in turn. */
  method LeaveAll(index: Index, client: Client) returns (after: Index)
    requires Inverse(index)
    ensures Inverse(after)
    ensures forall c, n :: Subscribed(after, c, n) <==> Subscribed(index, c, n) && c != client
  {
    hide Leave;
    after := index;
    var todo := Names(index, client);
    while todo != {}
      invariant Inverse(after) && todo <= Names(index, client)
      invariant forall c, n :: Subscribed(after, c, n) <==>
        Subscribed(index, c, n) && !(c == client && n in Names(index, client) && n !in todo)
    {
      var name :| name in todo;
      LeaveInverse(after, client, name);
      after := Leave(after, client, name);
      todo := todo - {name};
    }
    forall c, n ensures Subscribed(after, c, n) <==> Subscribed(index, c, n) && c != client {
      assert Subscribed(index, c, n) <==> Listed(index, c, n);
    }
  }

  lemma NoTargets(m: Message)
    ensures DirectTargets({}, m) == {}
  {
  }

  lemma OneTarget(clients: set<Client>, client: Client, m: Message)
    requires client !in clients
    ensures Target(client, m) !in DirectTargets(clients, m)
    ensures DirectTargets(clients + {client}, m) == DirectTargets(clients, m) + {Target(client, m)}
  {
  }

  lemma NoPatternTargets(index: Index, channel: Bytes, payload: Bytes)
    ensures PatternTargets(index, {}, channel, payload) == {}
  {
  }

  lemma OnePattern(index: Index, done: set<Bytes>, pattern: Bytes, channel: Bytes, payload: Bytes,
      direct: set<Client>)
    requires pattern in index.byName && pattern !in done
    ensures var here := DirectTargets(index.byName[pattern], PMessage(pattern, channel, payload));
      var before := DirectTargets(direct, Message(channel, payload)) + PatternTargets(index, done, channel, payload);
      && here !! before
      && DirectTargets(direct, Message(channel, payload)) + PatternTargets(index, done + {pattern}, channel, payload)
         == before + here
  {
    var here := DirectTargets(index.byName[pattern], PMessage(pattern, channel, payload));
    assert PatternTargets(index, done + {pattern}, channel, payload)
        == PatternTargets(index, done, channel, payload) + here;
  }

  lemma ConcatSends(a: seq<Event>, b: seq<Event>, c: seq<Event>)
    ensures (a + b) + c == a + (b + c)
  {
  }

  lemma {:induction false} DeliversJoin(a: seq<Event>, s: set<Target>, m: nat, b: seq<Event>, t: set<Target>, n: nat)
    requires Delivers(a, s, m) && Delivers(b, t, n) && s !! t
    ensures Delivers(a + b, s + t, m + n)
  {
    EnqueuedAppend(a, b);
    var all := a + b;
    forall x ensures x in Targets(all) <==> x in Targets(a) || x in Targets(b) {
      if x in Targets(a) {
        var i :| 0 <= i < |a| && x == Target(a[i].client, a[i].message);
        assert x == Target(all[i].client, all[i].message);
      }
      if x in Targets(b) {
        var i :| 0 <= i < |b| && x == Target(b[i].client, b[i].message);
        assert x == Target(all[|a| + i].client, all[|a| + i].message);
      }
    }
  }

  lemma {:induction false} EnqueuedAppend(a: seq<Event>, b: seq<Event>)
    requires forall i :: 0 <= i < |a| ==> a[i].Sent?
    requires forall i :: 0 <= i < |b| ==> b[i].Sent?
    ensures Enqueued(a + b) == Enqueued(a) + Enqueued(b)
  {
    if b == [] {
      assert a + b == a;
    } else {
      var n := |b| - 1;
      assert (a + b)[..|a + b| - 1] == a + b[..n];
      EnqueuedAppend(a, b[..n]);
    }
  }

  predicate Accepts(queues: Queues, id: nat) {
    id in queues && queues[id].open && |queues[id].pending| < queues[id].capacity
  }

  function Appended(queues: Queues, id: nat, m: Message): Queues
    requires id in queues
  {
    queues[id := queues[id].(pending := queues[id].pending + [m])]
  }

  lemma NextIsFresh(senders: Senders, queues: Queues, taken: Takings, next: nat, run: seq<Event>)
    requires Delivery(senders, queues, taken, next, run)
    ensures next !in queues
  {
    assert QueueOk(queues, taken, next, run, next);
  }
}
