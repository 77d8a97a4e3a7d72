/** pkg/sshutil/pool.go: the client pool, one lock section at a time.

    The pool itself is a class whose methods are the lock sections.  Around it stands a state machine
    of the requests that dial, of the keep-alive round and of Close, in which these sections interleave;
    it keeps track of where each dialled client is. */
module SshPool {
  type Key = string

  /** A pooled client; every dial makes a new client and a new entry, so the client identifies both. */
  datatype Entry = Entry(client: nat, lastUsed: nat)

  /** What the lock protects, and the clients the pool has closed so far. */
  datatype Shared = Shared(clients: map<Key, Entry>, closed: seq<nat>)

  // ---------------------------------------------------------------- the lock sections

  function AfterLookup(s: Shared, key: Key, valid: bool, now: nat): Shared {
    if key !in s.clients then s
    else if valid then s.(clients := s.clients[key := s.clients[key].(lastUsed := now)])
    else Shared(s.clients - {key}, s.closed + [s.clients[key].client])
  }

  function AfterStore(s: Shared, key: Key, client: nat, now: nat): Shared {
    s.(clients := s.clients[key := Entry(client, now)])
  }

  function AfterCheck(s: Shared, key: Key, client: nat, valid: bool, now: nat): Shared {
    if key !in s.clients || s.clients[key].client != client then s
    else if valid then s.(clients := s.clients[key := Entry(client, now)])
    else Shared(s.clients - {key}, s.closed + [client])
  }

  function ClientsOf(clients: map<Key, Entry>, order: seq<Key>): (r: seq<nat>)
    requires forall k :: k in order ==> k in clients
    ensures |r| == |order| && forall i :: 0 <= i < |r| ==> r[i] == clients[order[i]].client
  {
    seq(|order|, i requires 0 <= i < |order| => clients[order[i]].client)
  }

  /** The snapshot a keep-alive round starts from. */
  ghost function IdleIn(clients: map<Key, Entry>, keepAlive: nat, now: nat): map<Key, nat> {
    map k | k in clients && now - clients[k].lastUsed > keepAlive / 2 :: clients[k].client
  }

  lemma IdleOneMore(clients: map<Key, Entry>, rest: set<Key>, key: Key, keepAlive: nat, now: nat)
    requires rest <= clients.Keys && key in rest
    ensures var before, after := IdleIn(clients - rest, keepAlive, now), IdleIn(clients - (rest - {key}), keepAlive, now);
      after == if now - clients[key].lastUsed > keepAlive / 2 then before[key := clients[key].client] else before
  {
  }

  predicate Distinct<T(==)>(s: seq<T>) { forall i, j :: 0 <= i < j < |s| ==> s[i] != s[j] }

  ghost predicate Enumerates(order: seq<Key>, clients: map<Key, Entry>) {
    Distinct(order) && forall k :: k in order <==> k in clients
  }

  lemma NonEmpty(clients: map<Key, Entry>)
    requires clients != map[]
    ensures exists k :: k in clients
  {
  }

  class Pool {
    var clients: map<Key, Entry>
    var closed: seq<nat>
    const keepAlive: nat

    ghost function Contents(): Shared
      reads this
    {
      Shared(clients, closed)
    }

    constructor (keepAlive: nat)
      ensures this.keepAlive == keepAlive && Contents() == Shared(map[], [])
    {
      this.keepAlive, clients, closed := keepAlive, map[], [];
    }

    /** Lines 62-74. `valid` is what the liveness request on the pooled client answers. */
    method Lookup(key: Key, valid: bool, now: nat) returns (found: bool, client: nat)
      modifies this
      ensures Contents() == AfterLookup(old(Contents()), key, valid, now)
      ensures found <==> key in old(clients) && valid
      ensures found ==> client == old(clients)[key].client && clients == old(clients)[key := Entry(client, now)]
      ensures !found && key in old(clients) ==> clients == old(clients) - {key} && closed == old(closed) + [old(clients)[key].client]
      ensures found || key !in old(clients) ==> closed == old(closed)
    {
      if key in clients {
        if valid {
          clients := clients[key := clients[key].(lastUsed := now)];
          return true, clients[key].client;
        }
        var dead := clients[key].client;
        clients := clients - {key};
        closed := closed + [dead];
      }
      return false, 0;
    }

    /** Lines 82-84. */
    method Store(key: Key, client: nat, now: nat)
      modifies this
      ensures Contents() == AfterStore(old(Contents()), key, client, now)
      ensures clients == old(clients)[key := Entry(client, now)] && closed == old(closed)
    {
      clients := clients[key := Entry(client, now)];
    }

    /** Lines 112-120: the loop collects the entries that have not been used for half the interval. */
    method IdleClients(now: nat) returns (candidates: map<Key, nat>)
      ensures candidates == IdleIn(clients, keepAlive, now)
      ensures forall k :: k in candidates <==> k in clients && now > clients[k].lastUsed + keepAlive / 2
      ensures forall k :: k in candidates ==> candidates[k] == clients[k].client
    {
      candidates := map[];
      var rest := clients.Keys;
      while rest != {}
        invariant rest <= clients.Keys
        invariant candidates == IdleIn(clients - rest, keepAlive, now)
        decreases rest
      {
        var key :| key in rest;
        var entry := clients[key];
        IdleOneMore(clients, rest, key, keepAlive, now);
        if now - entry.lastUsed > keepAlive / 2 { candidates := candidates[key := entry.client]; }
        rest := rest - {key};
      }
      assert clients - {} == clients;
    }

    /** Lines 123-138: the entry may have been replaced since the snapshot; only the same one counts. */
    method Check(key: Key, client: nat, valid: bool, now: nat)
      modifies this
      ensures Contents() == AfterCheck(old(Contents()), key, client, valid, now)
      ensures key !in old(clients) || old(clients)[key].client != client ==> clients == old(clients) && closed == old(closed)
      ensures key in old(clients) && old(clients)[key].client == client ==>
        if valid then clients == old(clients)[key := Entry(client, now)] && closed == old(closed)
        else clients == old(clients) - {key} && closed == old(closed) + [client]
    {
      if valid {
        if key in clients && clients[key].client == client {
          clients := clients[key := clients[key].(lastUsed := now)];
        }
      } else {
        if key in clients && clients[key].client == client {
          clients := clients - {key};
          closed := closed + [client];
        }
      }
    }

    /** Lines 149-154: every pooled client is closed once, in the order the map is walked. */
    method Close() returns (ghost order: seq<Key>)
      modifies this
      ensures Enumerates(order, old(clients))
      ensures Contents() == Shared(map[], old(closed) + ClientsOf(old(clients), order))
    {
      order := [];
      ghost var start := clients;
      while clients != map[]
        invariant ClosingAll(start, order, clients) && closed == old(closed) + ClientsOf(start, order)
        decreases |clients|
      {
        NonEmpty(clients);
        var key :| key in clients;
        ClosingOne(start, order, clients, key);
        closed := closed + [clients[key].client];
        clients := clients - {key};
        order := order + [key];
      }
    }
  }

  /** The entries listed in `order` are gone from the map, the others are as they were. */
  ghost predicate ClosingAll(start: map<Key, Entry>, order: seq<Key>, clients: map<Key, Entry>) {
    && Distinct(order) && (forall k :: k in order <==> k in start && k !in clients)
    && forall k :: k in clients ==> k in start && clients[k] == start[k]
  }

  lemma ClosingOne(start: map<Key, Entry>, order: seq<Key>, clients: map<Key, Entry>, key: Key)
    requires ClosingAll(start, order, clients) && key in clients
    ensures ClosingAll(start, order + [key], clients - {key}) && |clients - {key}| < |clients|
    ensures ClientsOf(start, order + [key]) == ClientsOf(start, order) + [clients[key].client]
  {
    assert (clients - {key}).Keys == clients.Keys - {key};
    assert |clients| == |clients.Keys| && |clients - {key}| == |(clients - {key}).Keys|;
  }

  // ---------------------------------------------------------------- the pool among its users

  /**
   * dialing    requests between their first lock section and the result of their dial
   * flying     clients that were dialled and not yet stored
   * checking   the snapshot of the keep-alive round under way
   * displaced  clients that were overwritten in the map by a later store
   * keyOf      the key each client was dialled for, one entry per client dialled so far
   * overlapped a request missed while another one for the same key was between lookup and store
   */
  datatype State = State(shared: Shared, dialing: map<nat, Key>, flying: set<nat>, checking: map<Key, nat>,
                         displaced: set<nat>, keyOf: seq<Key>, overlapped: bool)

  datatype Action =
    | Lookup(request: nat, key: Key, valid: bool, now: nat)
    | DialFails(request: nat)
    | Dials(request: nat)
    | Stores(client: nat, now: nat)
    | Snapshots(keepAlive: nat, now: nat)
    | Checks(key: Key, valid: bool, now: nat)
    | Closes(order: seq<Key>)

  const INITIAL := State(Shared(map[], []), map[], {}, map[], {}, [], false)

  ghost predicate Outstanding(s: State, key: Key) {
    (exists r :: r in s.dialing && s.dialing[r] == key) || (exists c :: FlyingFor(s, c, key))
  }

  ghost predicate FlyingFor(s: State, c: nat, key: Key) { c in s.flying && c < |s.keyOf| && s.keyOf[c] == key }

  ghost predicate Enabled(s: State, a: Action) {
    match a
    case Lookup(r, _, _, _) => r !in s.dialing
    case DialFails(r) => r in s.dialing
    case Dials(r) => r in s.dialing
    case Stores(c, _) => c in s.flying && c < |s.keyOf|
    case Snapshots(_, _) => s.checking == map[]
    case Checks(key, _, _) => key in s.checking
    case Closes(order) => Enumerates(order, s.shared.clients)
  }

  ghost function Apply(s: State, a: Action): State
    requires Enabled(s, a)
  {
    match a
    case Lookup(r, key, valid, now) =>
      var after := AfterLookup(s.shared, key, valid, now);
      if key in s.shared.clients && valid then s.(shared := after)
      else s.(shared := after, dialing := s.dialing[r := key], overlapped := s.overlapped || Outstanding(s, key))
    case DialFails(r) => s.(dialing := s.dialing - {r})
    case Dials(r) => s.(dialing := s.dialing - {r}, flying := s.flying + {|s.keyOf|}, keyOf := s.keyOf + [s.dialing[r]])
    case Stores(c, now) =>
      var key := s.keyOf[c];
      s.(shared := AfterStore(s.shared, key, c, now), flying := s.flying - {c},
         displaced := if key in s.shared.clients then s.displaced + {s.shared.clients[key].client} else s.displaced)
    case Snapshots(keepAlive, now) => s.(checking := IdleIn(s.shared.clients, keepAlive, now))
    case Checks(key, valid, now) =>
      s.(shared := AfterCheck(s.shared, key, s.checking[key], valid, now), checking := s.checking - {key})
    case Closes(order) => s.(shared := Shared(map[], s.shared.closed + ClientsOf(s.shared.clients, order)))
  }

  ghost predicate IsRun(actions: seq<Action>, states: seq<State>) {
    && |states| == |actions| + 1 && states[0] == INITIAL
    && forall n :: 0 <= n < |actions| ==> StepAt(actions, states, n)
  }

  ghost predicate StepAt(actions: seq<Action>, states: seq<State>, n: nat)
    requires n < |actions| < |states|
  {
    Enabled(states[n], actions[n]) && states[n + 1] == Apply(states[n], actions[n])
  }

  // ---------------------------------------------------------------- ownership

  /** In the map, under the key it was dialled for. */
  ghost predicate Pooled(s: State, c: nat) {
    c < |s.keyOf| && s.keyOf[c] in s.shared.clients && s.shared.clients[s.keyOf[c]].client == c
  }

  /** Each client dialled so far is in exactly one place. */
  ghost predicate OnePlace(s: State, c: nat) {
    || (c in s.flying && !Pooled(s, c) && c !in s.shared.closed && c !in s.displaced)
    || (c !in s.flying && Pooled(s, c) && c !in s.shared.closed && c !in s.displaced)
    || (c !in s.flying && !Pooled(s, c) && c in s.shared.closed && c !in s.displaced)
    || (c !in s.flying && !Pooled(s, c) && c !in s.shared.closed && c in s.displaced)
  }

  ghost predicate Inv(s: State) {
    && (forall c :: 0 <= c < |s.keyOf| ==> OnePlace(s, c))
    && (forall c :: c in s.flying || c in s.shared.closed || c in s.displaced ==> c < |s.keyOf|)
    && (forall k :: k in s.shared.clients ==> s.shared.clients[k].client < |s.keyOf| && s.keyOf[s.shared.clients[k].client] == k)
    && Distinct(s.shared.closed)
  }

  lemma ElementsOf(clients: map<Key, Entry>, order: seq<Key>, c: nat)
    requires Enumerates(order, clients)
    ensures c in ClientsOf(clients, order) <==> exists k :: k in clients && clients[k].client == c
  {
    if k :| k in clients && clients[k].client == c {
      var i :| 0 <= i < |order| && order[i] == k;
      assert ClientsOf(clients, order)[i] == c;
    }
    if c in ClientsOf(clients, order) {
      var i :| 0 <= i < |order| && ClientsOf(clients, order)[i] == c;
      assert order[i] in clients;
    }
  }

  lemma CloseKeeps(s: State, order: seq<Key>)
    requires Inv(s) && Enumerates(order, s.shared.clients)
    ensures Inv(Apply(s, Closes(order)))
  {
    var s' := Apply(s, Closes(order));
    var last := ClientsOf(s.shared.clients, order);
    forall c | 0 <= c < |s.keyOf|
      ensures c in last <==> Pooled(s, c)
      ensures OnePlace(s', c)
    {
      ElementsOf(s.shared.clients, order, c);
      assert OnePlace(s, c);
    }
    forall c | c in last
      ensures c < |s.keyOf|
    {
      ElementsOf(s.shared.clients, order, c);
    }
    forall i, j | 0 <= i < j < |last|
      ensures last[i] != last[j]
    {
      assert order[i] in s.shared.clients && order[j] in s.shared.clients;
    }
    forall i | 0 <= i < |last|
      ensures last[i] !in s.shared.closed
    {
      assert last[i] in last;
      assert OnePlace(s, last[i]);
    }
    var all := s.shared.closed + last;
    forall i, j | 0 <= i < j < |all|
      ensures all[i] != all[j]
    {
      if i < |s.shared.closed| { assert all[i] in s.shared.closed; }
    }
  }

  /** Taking a pooled client out of the map and closing it. */
  lemma EvictKeeps(s: State, key: Key)
    requires Inv(s) && key in s.shared.clients
    ensures Inv(s.(shared := Shared(s.shared.clients - {key}, s.shared.closed + [s.shared.clients[key].client])))
  {
    var dead := s.shared.clients[key].client;
    var s' := s.(shared := Shared(s.shared.clients - {key}, s.shared.closed + [dead]));
    assert OnePlace(s, dead);
    forall c | 0 <= c < |s.keyOf|
      ensures OnePlace(s', c)
    {
      assert OnePlace(s, c);
    }
  }

  lemma TouchKeeps(s: State, key: Key, now: nat)
    requires Inv(s) && key in s.shared.clients
    ensures Inv(s.(shared := s.shared.(clients := s.shared.clients[key := s.shared.clients[key].(lastUsed := now)])))
  {
    var s' := s.(shared := s.shared.(clients := s.shared.clients[key := s.shared.clients[key].(lastUsed := now)]));
    forall c | 0 <= c < |s.keyOf|
      ensures OnePlace(s', c)
    {
      assert OnePlace(s, c);
    }
  }

  lemma StoreKeeps(s: State, c: nat, now: nat)
    requires Inv(s) && c in s.flying
    ensures Inv(Apply(s, Stores(c, now)))
  {
    var s' := Apply(s, Stores(c, now));
    forall d | 0 <= d < |s.keyOf|
      ensures OnePlace(s', d)
    {
      assert OnePlace(s, d);
    }
  }

  lemma DialKeeps(s: State, r: nat)
    requires Inv(s) && r in s.dialing
    ensures Inv(Apply(s, Dials(r)))
  {
    var s' := Apply(s, Dials(r));
    forall c | 0 <= c < |s'.keyOf|
      ensures OnePlace(s', c)
    {
      if c < |s.keyOf| { assert OnePlace(s, c); }
    }
  }

  /** Fields the ownership does not depend on. */
  lemma Irrelevant(s: State, s': State)
    requires Inv(s) && s'.shared == s.shared && s'.flying == s.flying && s'.displaced == s.displaced && s'.keyOf == s.keyOf
    ensures Inv(s')
  {
    forall c | 0 <= c < |s.keyOf|
      ensures OnePlace(s', c)
    {
      assert OnePlace(s, c);
    }
  }

  lemma StepKeeps(s: State, a: Action)
    requires Inv(s) && Enabled(s, a)
    ensures Inv(Apply(s, a))
  {
    match a
    case Lookup(r, key, valid, now) =>
      var mid := s.(shared := AfterLookup(s.shared, key, valid, now));
      if key !in s.shared.clients {
      } else if valid {
        TouchKeeps(s, key, now);
      } else {
        EvictKeeps(s, key);
      }
      Irrelevant(mid, Apply(s, a));
    case DialFails(r) => Irrelevant(s, Apply(s, a));
    case Dials(r) => DialKeeps(s, r);
    case Stores(c, now) => StoreKeeps(s, c, now);
    case Snapshots(_, _) => Irrelevant(s, Apply(s, a));
    case Checks(key, valid, now) =>
      var c := s.checking[key];
      var mid := s.(shared := AfterCheck(s.shared, key, c, valid, now));
      if key !in s.shared.clients || s.shared.clients[key].client != c {
      } else if valid {
        TouchKeeps(s, key, now);
      } else {
        EvictKeeps(s, key);
      }
      Irrelevant(mid, Apply(s, a));
    case Closes(order) => CloseKeeps(s, order);
  }

  lemma {:induction false} RunInv(actions: seq<Action>, states: seq<State>, n: nat)
    requires IsRun(actions, states) && n <= |actions|
    ensures Inv(states[n])
  {
    if n > 0 {
      RunInv(actions, states, n - 1);
      assert StepAt(actions, states, n - 1);
      StepKeeps(states[n - 1], actions[n - 1]);
    }
  }

  /** At every moment of every run each client ever dialled is in flight, pooled under its own key,
      closed or displaced, and in one of these only; no closed client is left in the map. */
  lemma EveryClientHasOnePlace(actions: seq<Action>, states: seq<State>, n: nat)
    requires IsRun(actions, states) && n <= |actions|
    ensures forall c :: 0 <= c < |states[n].keyOf| ==> OnePlace(states[n], c)
    ensures forall k :: k in states[n].shared.clients ==> states[n].shared.clients[k].client !in states[n].shared.closed
  {
    RunInv(actions, states, n);
    forall k | k in states[n].shared.clients
      ensures states[n].shared.clients[k].client !in states[n].shared.closed
    {
      assert OnePlace(states[n], states[n].shared.clients[k].client);
    }
  }

  /** The pool never closes a client twice. */
  lemma ClosedOnce(actions: seq<Action>, states: seq<State>, n: nat)
    requires IsRun(actions, states) && n <= |actions|
    ensures Distinct(states[n].shared.closed)
  {
    RunInv(actions, states, n);
  }

  // ---------------------------------------------------------------- what a keep-alive round closes

  predicate Timed(a: Action) { a.Lookup? || a.Stores? || a.Snapshots? || a.Checks? }

  /** The clock never goes back. */
  ghost predicate ClockRuns(actions: seq<Action>) {
    forall i, j :: 0 <= i < j < |actions| && Timed(actions[i]) && Timed(actions[j]) ==> actions[i].now <= actions[j].now
  }

  /** The client is handed out, stored, or found to be alive. */
  ghost predicate Uses(s: State, a: Action, c: nat) {
    match a
    case Lookup(_, key, valid, _) => valid && key in s.shared.clients && s.shared.clients[key].client == c
    case Stores(client, _) => client == c
    case Checks(key, valid, _) =>
      valid && key in s.checking && key in s.shared.clients && s.shared.clients[key].client == s.checking[key] == c
    case _ => false
  }

  lemma UsesTimed(s: State, a: Action, c: nat)
    ensures Uses(s, a, c) ==> Timed(a)
  {
  }

  /** No use of the client before step `n` is later than `time`. */
  ghost predicate UsedUntil(actions: seq<Action>, states: seq<State>, n: nat, c: nat, time: nat)
    requires n <= |actions| < |states|
  {
    forall t: nat :: t < n && Uses(states[t], actions[t], c) ==> actions[t].now <= time
  }

  /** A step either leaves an entry alone, and does not use its client, or stamps it with its own time. */
  lemma EntryStep(s: State, a: Action, key: Key)
    requires Inv(s) && Enabled(s, a) && key in Apply(s, a).shared.clients
    ensures var entry := Apply(s, a).shared.clients[key];
      || (key in s.shared.clients && s.shared.clients[key] == entry && !Uses(s, a, entry.client))
      || (Timed(a) && entry.lastUsed == a.now)
  {
    if a.Stores? && s.keyOf[a.client] != key && key in s.shared.clients { assert OnePlace(s, a.client); }
  }

  lemma {:induction false} StampIsLastUse(actions: seq<Action>, states: seq<State>, n: nat, key: Key)
    requires IsRun(actions, states) && ClockRuns(actions) && n <= |actions| && key in states[n].shared.clients
    ensures UsedUntil(actions, states, n, states[n].shared.clients[key].client, states[n].shared.clients[key].lastUsed)
  {
    if n > 0 {
      var s, a, entry := states[n - 1], actions[n - 1], states[n].shared.clients[key];
      RunInv(actions, states, n - 1);
      assert StepAt(actions, states, n - 1);
      EntryStep(s, a, key);
      if key in s.shared.clients && s.shared.clients[key] == entry && !Uses(s, a, entry.client) {
        StampIsLastUse(actions, states, n - 1, key);
      } else {
        forall t: nat | t < n && Uses(states[t], actions[t], entry.client)
          ensures actions[t].now <= entry.lastUsed
        {
          UsesTimed(states[t], actions[t], entry.client);
        }
      }
    }
  }

  /** Step `m` took the snapshot that the round at step `n` works from, and had this client in it. */
  ghost predicate RoundFrom(actions: seq<Action>, states: seq<State>, m: nat, n: nat, key: Key, c: nat)
    requires n <= |actions| < |states|
  {
    && m < n && actions[m].Snapshots? && (forall t :: m < t < n ==> !actions[t].Snapshots?)
    && var idle := IdleIn(states[m].shared.clients, actions[m].keepAlive, actions[m].now);
       key in idle && idle[key] == c
  }

  lemma {:induction false} RoundStart(actions: seq<Action>, states: seq<State>, n: nat, key: Key) returns (m: nat)
    requires IsRun(actions, states) && n <= |actions| && key in states[n].checking
    ensures RoundFrom(actions, states, m, n, key, states[n].checking[key])
  {
    assert n > 0;
    assert StepAt(actions, states, n - 1);
    if actions[n - 1].Snapshots? { m := n - 1; } else { m := RoundStart(actions, states, n - 1, key); }
  }

  /** When a keep-alive round closes a client, that client was pooled when the round began, and had
      not been handed out, stored or found alive for more than half the interval. */
  lemma {:induction false} RoundClosesOnlyIdle(actions: seq<Action>, states: seq<State>, n: nat) returns (m: nat)
    requires IsRun(actions, states) && ClockRuns(actions) && n < |actions| && actions[n].Checks?
    requires states[n + 1].shared.closed != states[n].shared.closed
    ensures actions[n].key in states[n].checking
    ensures var c := states[n].checking[actions[n].key];
      && states[n + 1].shared.closed == states[n].shared.closed + [c]
      && RoundFrom(actions, states, m, n, actions[n].key, c) && Pooled(states[m], c)
      && forall t: nat :: t < m && Uses(states[t], actions[t], c) ==> actions[m].now - actions[t].now > actions[m].keepAlive / 2
  {
    assert StepAt(actions, states, n);
    var key := actions[n].key;
    m := RoundStart(actions, states, n, key);
    RunInv(actions, states, m);
    StampIsLastUse(actions, states, m, key);
  }

  // ---------------------------------------------------------------- when a client is displaced

  /** Without overlapping requests at most one is under way per key, and only for keys not in the map. */
  ghost predicate Serial(s: State) {
    && s.displaced == {}
    && (forall k :: k in s.shared.clients ==> !Outstanding(s, k))
    && (forall r, q :: r in s.dialing && q in s.dialing && s.dialing[r] == s.dialing[q] ==> r == q)
    && (forall c, d :: c in s.flying && d in s.flying && c < |s.keyOf| && d < |s.keyOf| && s.keyOf[c] == s.keyOf[d] ==> c == d)
    && (forall r, c :: r in s.dialing && c in s.flying ==> !FlyingFor(s, c, s.dialing[r]))
  }

  lemma OutstandingLess(s: State, s': State, key: Key)
    requires forall r :: r in s'.dialing ==> r in s.dialing && s'.dialing[r] == s.dialing[r]
    requires s'.flying <= s.flying && s'.keyOf == s.keyOf
    ensures Outstanding(s', key) ==> Outstanding(s, key)
  {
    if c :| FlyingFor(s', c, key) { assert FlyingFor(s, c, key); }
  }

  /** Fewer pooled keys and fewer requests keep the state serial. */
  lemma SerialLess(s: State, s': State)
    requires Serial(s) && s'.displaced == {} && s'.shared.clients.Keys <= s.shared.clients.Keys
    requires forall r :: r in s'.dialing ==> r in s.dialing && s'.dialing[r] == s.dialing[r]
    requires s'.flying <= s.flying && s'.keyOf == s.keyOf
    ensures Serial(s')
  {
    forall k | k in s'.shared.clients
      ensures !Outstanding(s', k)
    {
      OutstandingLess(s, s', k);
    }
    forall r, c | r in s'.dialing && c in s'.flying
      ensures !FlyingFor(s', c, s'.dialing[r])
    {
      assert !FlyingFor(s, c, s.dialing[r]);
    }
  }

  lemma MissKeepsSerial(s: State, r: nat, key: Key)
    requires Serial(s) && r !in s.dialing && !Outstanding(s, key) && key !in s.shared.clients
    ensures Serial(s.(dialing := s.dialing[r := key]))
  {
    var s' := s.(dialing := s.dialing[r := key]);
    forall k | k in s'.shared.clients
      ensures !Outstanding(s', k)
    {
      assert !Outstanding(s, k);
      if c :| FlyingFor(s', c, k) { assert FlyingFor(s, c, k); }
    }
    forall q, c | q in s'.dialing && c in s'.flying
      ensures !FlyingFor(s', c, s'.dialing[q])
    {
      assert !FlyingFor(s, c, s'.dialing[q]);
    }
  }

  lemma DialKeepsSerial(s: State, r: nat)
    requires Inv(s) && Serial(s) && r in s.dialing
    ensures Serial(Apply(s, Dials(r)))
  {
    var s' := Apply(s, Dials(r));
    var made, key := |s.keyOf|, s.dialing[r];
    forall c, k | FlyingFor(s', c, k)
      ensures (c == made && k == key) || (c != made && FlyingFor(s, c, k))
    {
    }
    assert Outstanding(s, key);
    forall k | k in s'.shared.clients
      ensures !Outstanding(s', k)
    {
      assert !Outstanding(s, k);
    }
    forall c, d | c in s'.flying && d in s'.flying && s'.keyOf[c] == s'.keyOf[d]
      ensures c == d
    {
      assert FlyingFor(s', c, s'.keyOf[c]) && FlyingFor(s', d, s'.keyOf[c]);
    }
  }

  lemma StoreKeepsSerial(s: State, c: nat, now: nat)
    requires Inv(s) && Serial(s) && c in s.flying
    ensures Serial(Apply(s, Stores(c, now)))
  {
    var s' := Apply(s, Stores(c, now));
    var key := s.keyOf[c];
    assert FlyingFor(s, c, key);
    assert Outstanding(s, key);
    forall k | k in s'.shared.clients
      ensures !Outstanding(s', k)
    {
      OutstandingLess(s, s', k);
      if k == key {
        assert forall d :: FlyingFor(s', d, key) ==> FlyingFor(s, d, key) && d != c;
        assert forall r :: r in s.dialing ==> !FlyingFor(s, c, s.dialing[r]);
      }
    }
    forall r, d | r in s'.dialing && d in s'.flying
      ensures !FlyingFor(s', d, s'.dialing[r])
    {
      assert !FlyingFor(s, d, s.dialing[r]);
    }
  }

  lemma StepKeepsSerial(s: State, a: Action)
    requires Inv(s) && Enabled(s, a) && (s.overlapped || Serial(s))
    ensures Apply(s, a).overlapped || Serial(Apply(s, a))
  {
    var s' := Apply(s, a);
    if !s'.overlapped {
      match a
      case Lookup(r, key, valid, now) =>
        var mid := s.(shared := s'.shared);
        SerialLess(s, mid);
        if !(key in s.shared.clients && valid) {
          OutstandingLess(s, mid, key);
          MissKeepsSerial(mid, r, key);
        }
      case Dials(r) => DialKeepsSerial(s, r);
      case Stores(c, now) => StoreKeepsSerial(s, c, now);
      case _ => SerialLess(s, s');
    }
  }

  /** A client leaks out of the map only when requests for one key overlap. */
  lemma {:induction false} DisplacedNeedsOverlap(actions: seq<Action>, states: seq<State>, n: nat)
    requires IsRun(actions, states) && n <= |actions|
    ensures states[n].overlapped || Serial(states[n])
    ensures states[n].displaced != {} ==> states[n].overlapped
  {
    if n > 0 {
      DisplacedNeedsOverlap(actions, states, n - 1);
      RunInv(actions, states, n - 1);
      assert StepAt(actions, states, n - 1);
      StepKeepsSerial(states[n - 1], actions[n - 1]);
    }
  }

  /** A request that misses while another one for the same key is under way. */
  ghost predicate Overlaps(s: State, a: Action) {
    && a.Lookup? && !(a.key in s.shared.clients && a.valid)
    && ((exists r :: r in s.dialing && s.dialing[r] == a.key) ||
        (exists c :: c in s.flying && c < |s.keyOf| && s.keyOf[c] == a.key))
  }

  /** What counts as overlapping. */
  lemma {:induction false} OverlapIs(actions: seq<Action>, states: seq<State>, n: nat)
    requires IsRun(actions, states) && n <= |actions|
    ensures states[n].overlapped <==> exists t: nat :: t < n && Overlaps(states[t], actions[t])
  {
    if n > 0 {
      OverlapIs(actions, states, n - 1);
      assert StepAt(actions, states, n - 1);
      OverlapStep(states[n - 1], actions[n - 1]);
    }
  }

  lemma OverlapStep(s: State, a: Action)
    requires Enabled(s, a)
    ensures Apply(s, a).overlapped <==> s.overlapped || Overlaps(s, a)
  {
    if a.Lookup? {
      if c: nat :| FlyingFor(s, c, a.key) { assert c in s.flying && s.keyOf[c] == a.key; }
      if c: nat :| c in s.flying && c < |s.keyOf| && s.keyOf[c] == a.key { assert FlyingFor(s, c, a.key); }
    }
  }

  /** A client is stored while its key is in the map. */
  ghost predicate StoresOver(s: State, a: Action) {
    a.Stores? && a.client < |s.keyOf| && s.keyOf[a.client] in s.shared.clients
  }

  /** Only a store displaces a client, and it does so exactly when its key is in the map. */
  lemma StoreDisplacesIff(actions: seq<Action>, states: seq<State>, n: nat)
    requires IsRun(actions, states) && n < |actions|
    ensures states[n + 1].displaced != states[n].displaced <==>
      StoresOver(states[n], actions[n])
  {
    RunInv(actions, states, n);
    assert StepAt(actions, states, n);
    StepDisplacesIff(states[n], actions[n]);
  }

  lemma StepDisplacesIff(s: State, a: Action)
    requires Inv(s) && Enabled(s, a)
    ensures Apply(s, a).displaced != s.displaced <==> StoresOver(s, a)
  {
    if StoresOver(s, a) {
      var old' := s.shared.clients[s.keyOf[a.client]].client;
      assert OnePlace(s, old');
      assert old' in Apply(s, a).displaced;
    }
  }

  lemma ExtendRun(actions: seq<Action>, states: seq<State>, a: Action) returns (longer: seq<State>)
    requires IsRun(actions, states) && Enabled(states[|actions|], a)
    ensures IsRun(actions + [a], longer) && longer[|actions| + 1] == Apply(states[|actions|], a)
  {
    longer := states + [Apply(states[|actions|], a)];
    forall n: nat | n < |actions + [a]|
      ensures StepAt(actions + [a], longer, n)
    {
      if n < |actions| { assert StepAt(actions, states, n); }
    }
  }

  /** Two requests for one key that both miss: the second store displaces the first client. */
  lemma OverlapDisplaces(key: Key) returns (actions: seq<Action>, states: seq<State>)
    ensures IsRun(actions, states) && states[|actions|].displaced == {0}
  {
    actions, states := [], [INITIAL];
    states := ExtendRun(actions, states, Lookup(0, key, false, 0));
    actions := actions + [Lookup(0, key, false, 0)];
    states := ExtendRun(actions, states, Lookup(1, key, false, 0));
    actions := actions + [Lookup(1, key, false, 0)];
    states := ExtendRun(actions, states, Dials(0));
    actions := actions + [Dials(0)];
    states := ExtendRun(actions, states, Dials(1));
    actions := actions + [Dials(1)];
    states := ExtendRun(actions, states, Stores(0, 0));
    actions := actions + [Stores(0, 0)];
    states := ExtendRun(actions, states, Stores(1, 0));
    actions := actions + [Stores(1, 0)];
  }

  /** A request may fail and be made again; its client is then pooled, found idle by a keep-alive round, and
      closed by that round when it does not answer. */
  lemma RoundCloses(key: Key, keepAlive: nat) returns (actions: seq<Action>, states: seq<State>)
    ensures IsRun(actions, states) && states[|actions|].shared == Shared(map[], [0])
  {
    actions, states := [], [INITIAL];
    states := ExtendRun(actions, states, Lookup(0, key, false, 0));
    actions := actions + [Lookup(0, key, false, 0)];
    states := ExtendRun(actions, states, DialFails(0));
    actions := actions + [DialFails(0)];
    states := ExtendRun(actions, states, Lookup(0, key, false, 0));
    actions := actions + [Lookup(0, key, false, 0)];
    states := ExtendRun(actions, states, Dials(0));
    actions := actions + [Dials(0)];
    states := ExtendRun(actions, states, Stores(0, 0));
    actions := actions + [Stores(0, 0)];
    states := ExtendRun(actions, states, Snapshots(keepAlive, keepAlive + 1));
    actions := actions + [Snapshots(keepAlive, keepAlive + 1)];
    states := ExtendRun(actions, states, Checks(key, false, keepAlive + 1));
    actions := actions + [Checks(key, false, keepAlive + 1)];
  }
}
