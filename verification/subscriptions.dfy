/**
 * Subscriptions, kept twice: `client:sub:<clientId>` is a hash from topic pattern to qos text
 * (every subscription of a client), and `sub:client:<topic>` is a hash from client id to the
 * encoded subscription (the durable subscribers of a pattern, qos > 0 only). Two counters
 * track the clients and the durable subscriptions the store holds for offline delivery.
 */
module Subscriptions {
  import opened Wrappers
  import opened Text
  import Glob
  import opened Records
  import opened Keys
  import opened Store

  // ------------------------------------------------------------ list views

  /** The topic patterns a list of subscriptions names. */
  function Topics(subs: seq<Subscription>): set<string> {
    set i | 0 <= i < |subs| :: subs[i].topic
  }

  /** The topic patterns a list subscribes with qos > 0. */
  function DurableTopics(subs: seq<Subscription>): set<string> {
    set i | 0 <= i < |subs| && subs[i].qos > 0 :: subs[i].topic
  }

  /** `subs[i]` is the last subscription of the list on its topic. */
  predicate IsLast(subs: seq<Subscription>, i: int) {
    0 <= i < |subs| && forall j :: i < j < |subs| ==> subs[j].topic != subs[i].topic
  }

  /** `subs[i]` is the last subscription with qos > 0 of the list on its topic. */
  predicate IsLastDurable(subs: seq<Subscription>, i: int) {
    0 <= i < |subs| && subs[i].qos > 0 &&
    forall j :: i < j < |subs| && subs[j].qos > 0 ==> subs[j].topic != subs[i].topic
  }

  lemma TopicsSnoc(subs: seq<Subscription>)
    requires 0 < |subs|
    ensures Topics(subs) == Topics(subs[..|subs| - 1]) + {subs[|subs| - 1].topic}
    ensures DurableTopics(subs) == DurableTopics(subs[..|subs| - 1]) +
      (if subs[|subs| - 1].qos > 0 then {subs[|subs| - 1].topic} else {})
  {
    var init := subs[..|subs| - 1];
    forall t | t in Topics(subs) ensures t in Topics(init) + {subs[|subs| - 1].topic} {
      var i :| 0 <= i < |subs| && subs[i].topic == t;
      if i < |init| {
        assert init[i] == subs[i];
      }
    }
    forall t | t in Topics(init) ensures t in Topics(subs) {
      var i :| 0 <= i < |init| && init[i].topic == t;
      assert subs[i] == init[i];
    }
    forall t | t in DurableTopics(subs)
      ensures t in DurableTopics(init) + (if subs[|subs| - 1].qos > 0 then {subs[|subs| - 1].topic} else {})
    {
      var i :| 0 <= i < |subs| && subs[i].qos > 0 && subs[i].topic == t;
      if i < |init| {
        assert init[i] == subs[i];
      }
    }
    forall t | t in DurableTopics(init) ensures t in DurableTopics(subs) {
      var i :| 0 <= i < |init| && init[i].qos > 0 && init[i].topic == t;
      assert subs[i] == init[i];
    }
  }

  /** `m` holds, for each topic the list names, the qos text of the last subscription on it. */
  ghost predicate StoresLast(m: map<string, string>, subs: seq<Subscription>) {
    && m.Keys == Topics(subs)
    && forall i :: IsLast(subs, i) ==> subs[i].topic in m && m[subs[i].topic] == IntText(subs[i].qos)
  }

  /**
   * `subs.reduce(asKeyValuePair, {})`, the fields HMSET writes to the client's hash: each
   * named topic maps to the text of its qos, a later duplicate overriding an earlier one.
   */
  function ToStore(subs: seq<Subscription>): (m: map<string, string>)
    ensures StoresLast(m, subs)
  {
    if |subs| == 0 then map[]
    else
      var init := subs[..|subs| - 1];
      var s := subs[|subs| - 1];
      var m0 := ToStore(init);
      ToStoreSnoc(subs, m0);
      m0[s.topic := IntText(s.qos)]
  }

  /** One more subscription overrides its topic's entry and keeps `StoresLast`. */
  lemma ToStoreSnoc(subs: seq<Subscription>, m0: map<string, string>)
    requires 0 < |subs| && StoresLast(m0, subs[..|subs| - 1])
    ensures StoresLast(m0[subs[|subs| - 1].topic := IntText(subs[|subs| - 1].qos)], subs)
  {
    var init := subs[..|subs| - 1];
    var s := subs[|subs| - 1];
    var m := m0[s.topic := IntText(s.qos)];
    forall i | IsLast(subs, i) ensures subs[i].topic in m && m[subs[i].topic] == IntText(subs[i].qos) {
      if i < |init| {
        LastOfInit(subs, i);
        var t := subs[i].topic;
        assert t in m0 && m0[t] == IntText(subs[i].qos);
        assert t != s.topic;
        assert m[t] == m0[t];
      } else {
        assert subs[i] == s;
      }
    }
    TopicsSnoc(subs);
  }

  lemma LastOfInit(subs: seq<Subscription>, i: int)
    requires IsLast(subs, i) && i < |subs| - 1
    ensures IsLast(subs[..|subs| - 1], i) && subs[..|subs| - 1][i] == subs[i]
    ensures subs[i].topic != subs[|subs| - 1].topic
  {
  }

  /** How many of the subscriptions have qos > 0: the `count` addSubscriptions adds. */
  function DurableCount(subs: seq<Subscription>): (n: nat)
    ensures n == |set i | 0 <= i < |subs| && subs[i].qos > 0|
    ensures n <= |subs|
  {
    if |subs| == 0 then 0
    else
      DurableSplit(subs);
      DurableCount(subs[..|subs| - 1]) + (if subs[|subs| - 1].qos > 0 then 1 else 0)
  }

  /** The durable indices of a sequence: those of all but its last element, and the last when durable. */
  lemma DurableSplit(subs: seq<Subscription>)
    requires 0 < |subs|
    ensures var init := subs[..|subs| - 1];
      |set i | 0 <= i < |subs| && subs[i].qos > 0| ==
        |set i | 0 <= i < |init| && init[i].qos > 0| + (if subs[|subs| - 1].qos > 0 then 1 else 0)
  {
    var init := subs[..|subs| - 1];
    var last := |subs| - 1;
    var before := set i | 0 <= i < |init| && init[i].qos > 0;
    var after := set i | 0 <= i < |subs| && subs[i].qos > 0;
    assert after == before + (if subs[last].qos > 0 then {last} else {});
    assert last !in before;
  }

  // ------------------------------------------------------------ reverse index

  /** Every `sub:client:` key holds a hash or nothing. */
  ghost predicate ReverseHashes(db: Db) {
    forall t :: HashOrAbsent(db, SubClientKey(t))
  }

  lemma WellTypedReverseHashes(db: Db)
    requires WellTyped(db)
    ensures ReverseHashes(db)
  {
    forall t ensures HashOrAbsent(db, SubClientKey(t)) {
      WellTypedKinds(db, SubClientKey(t));
    }
  }

  /** Outside the `sub:client:` family nothing changed. */
  ghost predicate OnlyReverseChanged(db: Db, r: Db) {
    forall k :: NamespaceOf(k) != TopicSubscribers ==> Agree(db, r, k)
  }

  /** In every `sub:client:` hash, the fields of clients other than `clientId` are as they were. */
  ghost predicate OthersKept(db: Db, r: Db, clientId: string) {
    forall t :: Fields(r, SubClientKey(t)) - {clientId} == Fields(db, SubClientKey(t)) - {clientId}
  }

  /**
   * The client's reverse entries after writing `subs` over `db`: it is subscribed to a topic
   * iff it was before or the list subscribes it with qos > 0, and the entry holds the last
   * such subscription, encoded.
   */
  ghost predicate ReverseWritten(env: Env, db: Db, r: Db, clientId: string, subs: seq<Subscription>) {
    && (forall t :: clientId in Fields(r, SubClientKey(t)) <==> clientId in Fields(db, SubClientKey(t)) || t in DurableTopics(subs))
    && (forall i :: IsLastDurable(subs, i) ==>
         && clientId in Fields(r, SubClientKey(subs[i].topic))
         && Fields(r, SubClientKey(subs[i].topic))[clientId] == env.subscriptions.encode(subs[i]))
  }

  /**
   * The `HSET sub:client:<topic> <clientId> <encoded sub>` addSubscriptions queues, in list
   * order, for each subscription with qos > 0. Only the client's own fields of `sub:client:`
   * hashes change: present for every durable topic of the list, holding the last durable
   * subscription on that topic.
   */
  function WriteReverse(env: Env, db: Db, clientId: string, subs: seq<Subscription>): (r: Db)
    ensures OnlyReverseChanged(db, r) && OthersKept(db, r, clientId)
    ensures ReverseHashes(db) ==> ReverseHashes(r) && ReverseWritten(env, db, r, clientId, subs)
    ensures WellTyped(db) ==> WellTyped(r)
  {
    if |subs| == 0 then
      assert DurableTopics(subs) == {};
      db
    else
      var d := WriteReverse(env, db, clientId, subs[..|subs| - 1]);
      var s := subs[|subs| - 1];
      if s.qos > 0 then
        var key := SubClientKey(s.topic);
        var v := env.subscriptions.encode(s);
        HSetReverseFrame(db, d, key, clientId, v);
        HSetReverseEntries(env, db, d, clientId, subs);
        HSet(d, key, clientId, v)
      else
        SkipReverseEntries(env, db, d, clientId, subs);
        d
  }

  /** HSET of the client's field in a `sub:client:` hash keeps the frame of `WriteReverse`. */
  lemma HSetReverseFrame(db: Db, d: Db, key: string, clientId: string, v: string)
    requires NamespaceOf(key) == TopicSubscribers
    requires OnlyReverseChanged(db, d) && OthersKept(db, d, clientId)
    ensures var r := HSet(d, key, clientId, v);
      && OnlyReverseChanged(db, r) && OthersKept(db, r, clientId)
      && (ReverseHashes(d) ==> ReverseHashes(r))
      && (WellTyped(d) ==> WellTyped(r))
  {
    var r := HSet(d, key, clientId, v);
    forall t ensures Fields(r, SubClientKey(t)) - {clientId} == Fields(db, SubClientKey(t)) - {clientId} {
      if SubClientKey(t) == key && HashOrAbsent(d, key) {
        assert Fields(r, key) - {clientId} == Fields(d, key) - {clientId};
      }
    }
  }

  /** The HSET of a durable subscription makes its entry the client's entry on that topic. */
  lemma HSetReverseEntries(env: Env, db: Db, d: Db, clientId: string, subs: seq<Subscription>)
    requires 0 < |subs| && subs[|subs| - 1].qos > 0
    ensures var s := subs[|subs| - 1];
      ReverseHashes(d) && ReverseWritten(env, db, d, clientId, subs[..|subs| - 1]) ==>
      ReverseWritten(env, db, HSet(d, SubClientKey(s.topic), clientId, env.subscriptions.encode(s)), clientId, subs)
  {
    if ReverseHashes(d) && ReverseWritten(env, db, d, clientId, subs[..|subs| - 1]) {
      HSetReverseEntriesStep(env, db, d, clientId, subs);
    }
  }

  lemma HSetReverseEntriesStep(env: Env, db: Db, d: Db, clientId: string, subs: seq<Subscription>)
    requires 0 < |subs| && subs[|subs| - 1].qos > 0
    requires ReverseHashes(d) && ReverseWritten(env, db, d, clientId, subs[..|subs| - 1])
    ensures var s := subs[|subs| - 1];
      ReverseWritten(env, db, HSet(d, SubClientKey(s.topic), clientId, env.subscriptions.encode(s)), clientId, subs)
  {
    HSetLastEntries(env, db, d, clientId, subs);
    HSetEntryMembership(env, db, d, clientId, subs);
  }

  /** After the HSET, each last durable subscription is the client's entry on its topic. */
  lemma HSetLastEntries(env: Env, db: Db, d: Db, clientId: string, subs: seq<Subscription>)
    requires 0 < |subs| && subs[|subs| - 1].qos > 0
    requires ReverseHashes(d) && ReverseWritten(env, db, d, clientId, subs[..|subs| - 1])
    ensures var s := subs[|subs| - 1];
      var r := HSet(d, SubClientKey(s.topic), clientId, env.subscriptions.encode(s));
      forall i :: IsLastDurable(subs, i) ==>
        && clientId in Fields(r, SubClientKey(subs[i].topic))
        && Fields(r, SubClientKey(subs[i].topic))[clientId] == env.subscriptions.encode(subs[i])
  {
    var init := subs[..|subs| - 1];
    var s := subs[|subs| - 1];
    var key := SubClientKey(s.topic);
    var r := HSet(d, key, clientId, env.subscriptions.encode(s));
    assert HashOrAbsent(d, key);
    forall i | IsLastDurable(subs, i)
      ensures clientId in Fields(r, SubClientKey(subs[i].topic))
      ensures Fields(r, SubClientKey(subs[i].topic))[clientId] == env.subscriptions.encode(subs[i])
    {
      if i < |init| {
        LastDurableOfInit(subs, i);
        var k := SubClientKey(subs[i].topic);
        assert clientId in Fields(d, k);
        assert k != key;
        assert Fields(r, k) == Fields(d, k);
      } else {
        assert subs[i] == s;
      }
    }
  }

  /** After the HSET, the client has an entry exactly on the topics it had or subscribes durably. */
  lemma HSetEntryMembership(env: Env, db: Db, d: Db, clientId: string, subs: seq<Subscription>)
    requires 0 < |subs| && subs[|subs| - 1].qos > 0
    requires ReverseHashes(d) && ReverseWritten(env, db, d, clientId, subs[..|subs| - 1])
    ensures var s := subs[|subs| - 1];
      var r := HSet(d, SubClientKey(s.topic), clientId, env.subscriptions.encode(s));
      forall t :: clientId in Fields(r, SubClientKey(t)) <==> clientId in Fields(db, SubClientKey(t)) || t in DurableTopics(subs)
  {
    var s := subs[|subs| - 1];
    var key := SubClientKey(s.topic);
    var r := HSet(d, key, clientId, env.subscriptions.encode(s));
    TopicsSnoc(subs);
    assert HashOrAbsent(d, key);
    forall t
      ensures clientId in Fields(r, SubClientKey(t)) <==> clientId in Fields(db, SubClientKey(t)) || t in DurableTopics(subs)
    {
      if t != s.topic {
        assert SubClientKey(t) != key;
      }
    }
  }

  /** A subscription with qos 0 writes no reverse entry and leaves the entries as they were. */
  lemma SkipReverseEntries(env: Env, db: Db, d: Db, clientId: string, subs: seq<Subscription>)
    requires 0 < |subs| && subs[|subs| - 1].qos <= 0
    ensures ReverseWritten(env, db, d, clientId, subs[..|subs| - 1]) ==> ReverseWritten(env, db, d, clientId, subs)
  {
    var init := subs[..|subs| - 1];
    TopicsSnoc(subs);
    forall i | IsLastDurable(subs, i) ensures i < |init| && IsLastDurable(init, i) && init[i] == subs[i] {
    }
  }

  lemma LastDurableOfInit(subs: seq<Subscription>, i: int)
    requires IsLastDurable(subs, i) && i < |subs| - 1 && subs[|subs| - 1].qos > 0
    ensures IsLastDurable(subs[..|subs| - 1], i) && subs[..|subs| - 1][i] == subs[i]
    ensures subs[i].topic != subs[|subs| - 1].topic
  {
  }
  // ---------------------------------------------------------------- add

  /** The key families addSubscriptions and the removals may write. */
  predicate SubscriptionSpace(ns: Namespace) {
    ns == ClientSubs || ns == TopicSubscribers || ns == OfflineClients || ns == OfflineSubscriptions
  }

  /**
   * addSubscriptions (the callback's error and client are not modelled: it reports no
   * outcome of its own). The client's hash gains every listed topic with the qos of its last
   * subscription, the client's reverse entries follow `WriteReverse`, the clients counter
   * grows by one exactly when the client had no hash before, and the subscriptions counter
   * grows by the number of listed subscriptions with qos > 0, duplicates included.
   */
  function AddSubscriptions(env: Env, db: Db, clientId: string, subs: seq<Subscription>): (r: Db)
    requires 0 < |subs|
    ensures HashOrAbsent(db, ClientSubKey(clientId)) ==>
      Fields(r, ClientSubKey(clientId)) == Fields(db, ClientSubKey(clientId)) + ToStore(subs)
    ensures forall c :: c != clientId ==> Agree(db, r, ClientSubKey(c))
    ensures OthersKept(db, r, clientId)
    ensures ReverseHashes(db) ==> ReverseWritten(env, db, r, clientId, subs)
    ensures IsCounter(db, OfflineClientsKey) ==>
      CounterOf(r, OfflineClientsKey) == CounterOf(db, OfflineClientsKey) + (if ClientSubKey(clientId) in db then 0 else 1)
    ensures IsCounter(db, OfflineSubscriptionsKey) ==>
      CounterOf(r, OfflineSubscriptionsKey) == CounterOf(db, OfflineSubscriptionsKey) + DurableCount(subs)
    ensures forall k :: !SubscriptionSpace(NamespaceOf(k)) ==> Agree(db, r, k)
    ensures WellTyped(db) ==> WellTyped(r)
  {
    var key := ClientSubKey(clientId);
    var d1 := HMSet(db, key, ToStore(subs));
    var d2 := WriteReverse(env, d1, clientId, subs);
    var d3 := if key in db then d2 else IncrBy(d2, OfflineClientsKey, 1);
    var r := IncrBy(d3, OfflineSubscriptionsKey, DurableCount(subs));
    CounterNamespaces();
    CountersOnly(d2, d3, r);
    assert subs[0].topic in ToStore(subs);
    AddAggregate(db, clientId, ToStore(subs), d1, d2, r);
    AddReverse(env, db, clientId, subs, d1, d2, r);
    AddCounters(db, clientId, subs, d2, d3, r);
    r
  }

  /** Updates of the two counters change no other key. */
  lemma CountersOnly(d2: Db, d3: Db, r: Db)
    requires IsCounterSpace(NamespaceOf(OfflineClientsKey)) && IsCounterSpace(NamespaceOf(OfflineSubscriptionsKey))
    requires d3 == d2 || d3 == IncrBy(d2, OfflineClientsKey, 1)
    requires exists n :: r == IncrBy(d3, OfflineSubscriptionsKey, n)
    ensures forall k :: !IsCounterSpace(NamespaceOf(k)) ==> Agree(d2, r, k)
    ensures WellTyped(d2) ==> WellTyped(r)
  {
    forall k | !IsCounterSpace(NamespaceOf(k)) ensures Agree(d2, r, k) {
      assert Agree(d2, d3, k) && Agree(d3, r, k);
    }
  }

  /** The client's hash gains the listed topics; every other hash keeps its contents. */
  lemma AddAggregate(db: Db, clientId: string, m: map<string, string>, d1: Db, d2: Db, r: Db)
    requires m != map[]
    requires d1 == HMSet(db, ClientSubKey(clientId), m)
    requires OnlyReverseChanged(d1, d2)
    requires forall k :: !IsCounterSpace(NamespaceOf(k)) ==> Agree(d2, r, k)
    ensures HashOrAbsent(db, ClientSubKey(clientId)) ==>
      Fields(r, ClientSubKey(clientId)) == Fields(db, ClientSubKey(clientId)) + m
    ensures forall c :: c != clientId ==> Agree(db, r, ClientSubKey(c))
    ensures forall k :: !SubscriptionSpace(NamespaceOf(k)) ==> Agree(db, r, k)
  {
    var key := ClientSubKey(clientId);
    assert Agree(d1, r, key) by {
      assert Agree(d2, r, key) && Agree(d1, d2, key);
    }
    forall c | c != clientId ensures Agree(db, r, ClientSubKey(c)) {
      assert Agree(db, d1, ClientSubKey(c)) && Agree(d1, d2, ClientSubKey(c)) && Agree(d2, r, ClientSubKey(c));
    }
    forall k | !SubscriptionSpace(NamespaceOf(k)) ensures Agree(db, r, k) {
      assert Agree(db, d1, k) && Agree(d1, d2, k) && Agree(d2, r, k);
    }
  }

  /** The reverse entries are those `WriteReverse` wrote. */
  lemma AddReverse(env: Env, db: Db, clientId: string, subs: seq<Subscription>, d1: Db, d2: Db, r: Db)
    requires d1 == HMSet(db, ClientSubKey(clientId), ToStore(subs))
    requires OthersKept(d1, d2, clientId) && (ReverseHashes(d1) ==> ReverseWritten(env, d1, d2, clientId, subs))
    requires forall k :: !IsCounterSpace(NamespaceOf(k)) ==> Agree(d2, r, k)
    ensures OthersKept(db, r, clientId)
    ensures ReverseHashes(db) ==> ReverseWritten(env, db, r, clientId, subs)
  {
    forall t ensures Fields(d1, SubClientKey(t)) == Fields(db, SubClientKey(t)) {
      assert Agree(db, d1, SubClientKey(t));
    }
    forall t ensures Fields(r, SubClientKey(t)) == Fields(d2, SubClientKey(t)) {
      assert Agree(d2, r, SubClientKey(t));
    }
    if ReverseHashes(db) {
      assert ReverseHashes(d1);
    }
  }

  /** The clients counter counts a new hash; the subscriptions counter the durable subscriptions. */
  lemma AddCounters(db: Db, clientId: string, subs: seq<Subscription>, d2: Db, d3: Db, r: Db)
    requires OfflineClientsKey != OfflineSubscriptionsKey
    requires Agree(db, d2, OfflineClientsKey) && Agree(db, d2, OfflineSubscriptionsKey)
    requires d3 == if ClientSubKey(clientId) in db then d2 else IncrBy(d2, OfflineClientsKey, 1)
    requires r == IncrBy(d3, OfflineSubscriptionsKey, DurableCount(subs))
    ensures IsCounter(db, OfflineClientsKey) ==>
      CounterOf(r, OfflineClientsKey) == CounterOf(db, OfflineClientsKey) + (if ClientSubKey(clientId) in db then 0 else 1)
    ensures IsCounter(db, OfflineSubscriptionsKey) ==>
      CounterOf(r, OfflineSubscriptionsKey) == CounterOf(db, OfflineSubscriptionsKey) + DurableCount(subs)
  {
    assert Agree(d2, d3, OfflineSubscriptionsKey);
    assert Agree(d3, r, OfflineClientsKey);
  }
  // ------------------------------------------------------------ add, corrected

  /** The topics whose last subscription in the list has qos 0. */
  function ZeroTopics(subs: seq<Subscription>): (z: set<string>)
    ensures z <= Topics(subs)
    ensures forall i :: IsLast(subs, i) ==> (subs[i].topic in z <==> subs[i].qos <= 0)
  {
    var z := set i | 0 <= i < |subs| && IsLast(subs, i) && subs[i].qos <= 0 :: subs[i].topic;
    assert forall i :: IsLast(subs, i) && subs[i].topic in z ==> subs[i].qos <= 0 by {
      forall i | IsLast(subs, i) && subs[i].topic in z ensures subs[i].qos <= 0 {
        var j :| 0 <= j < |subs| && IsLast(subs, j) && subs[j].qos <= 0 && subs[j].topic == subs[i].topic;
        LastUnique(subs, i, j);
      }
    }
    z
  }

  /** A topic has one last subscription. */
  lemma LastUnique(subs: seq<Subscription>, i: int, j: int)
    requires IsLast(subs, i) && IsLast(subs, j) && subs[i].topic == subs[j].topic
    ensures i == j
  {
  }

  /**
   * addSubscriptions as it is meant to behave, with a reverse entry exactly for the topics
   * held with qos > 0: as written, and in the same transaction an
   * `HDEL sub:client:<topic> <clientId>` for every topic whose last listed subscription has
   * qos 0, so that a subscription downgraded to qos 0 leaves the reverse index. Outside the
   * reverse index it is the add as written; the client's reverse entry on a topic is present
   * exactly when it was before or the list subscribes the topic with qos > 0, and the list's
   * last subscription on the topic does not have qos 0.
   */
  function AddSubscriptionsCorrected(env: Env, db: Db, clientId: string, subs: seq<Subscription>): (r: Db)
    requires 0 < |subs|
    ensures forall k :: NamespaceOf(k) != TopicSubscribers ==> Agree(AddSubscriptions(env, db, clientId, subs), r, k)
    ensures OthersKept(db, r, clientId)
    ensures ReverseHashes(db) ==> forall t ::
      clientId in Fields(r, SubClientKey(t)) <==>
        (clientId in Fields(db, SubClientKey(t)) || t in DurableTopics(subs)) && t !in ZeroTopics(subs)
    ensures ReverseHashes(db) ==> forall i :: IsLast(subs, i) && subs[i].qos > 0 ==>
      && clientId in Fields(r, SubClientKey(subs[i].topic))
      && Fields(r, SubClientKey(subs[i].topic))[clientId] == env.subscriptions.encode(subs[i])
    ensures WellTyped(db) ==> WellTyped(r)
  {
    var d := AddSubscriptions(env, db, clientId, subs);
    var r := DropField(d, ReverseKeys(ZeroTopics(subs)), clientId);
    DropZeroFrame(env, db, clientId, subs, d, r);
    DropZeroEntries(env, db, clientId, subs, d, r);
    r
  }

  /** Dropping the zero topics' entries changes only the client's fields of the reverse index. */
  lemma DropZeroFrame(env: Env, db: Db, clientId: string, subs: seq<Subscription>, d: Db, r: Db)
    requires OthersKept(db, d, clientId)
    requires r == DropField(d, ReverseKeys(ZeroTopics(subs)), clientId)
    ensures forall k :: NamespaceOf(k) != TopicSubscribers ==> Agree(d, r, k)
    ensures OthersKept(db, r, clientId)
  {
    var keys := ReverseKeys(ZeroTopics(subs));
    forall t ensures Fields(r, SubClientKey(t)) - {clientId} == Fields(db, SubClientKey(t)) - {clientId} {
      if SubClientKey(t) in keys {
        assert Fields(r, SubClientKey(t)) - {clientId} == Fields(d, SubClientKey(t)) - {clientId};
      } else {
        assert Agree(d, r, SubClientKey(t));
      }
    }
  }

  /** After the drop the client's entries are those written, less the zero topics. */
  lemma DropZeroEntries(env: Env, db: Db, clientId: string, subs: seq<Subscription>, d: Db, r: Db)
    requires ReverseHashes(db) ==> ReverseWritten(env, db, d, clientId, subs)
    requires r == DropField(d, ReverseKeys(ZeroTopics(subs)), clientId)
    ensures ReverseHashes(db) ==> forall t ::
      clientId in Fields(r, SubClientKey(t)) <==>
        (clientId in Fields(db, SubClientKey(t)) || t in DurableTopics(subs)) && t !in ZeroTopics(subs)
    ensures ReverseHashes(db) ==> forall i :: IsLast(subs, i) && subs[i].qos > 0 ==>
      && clientId in Fields(r, SubClientKey(subs[i].topic))
      && Fields(r, SubClientKey(subs[i].topic))[clientId] == env.subscriptions.encode(subs[i])
  {
    var z := ZeroTopics(subs);
    var keys := ReverseKeys(z);
    if ReverseHashes(db) {
      forall t ensures clientId in Fields(r, SubClientKey(t)) <==>
        (clientId in Fields(db, SubClientKey(t)) || t in DurableTopics(subs)) && t !in z
      {
        if t !in z {
          assert Agree(d, r, SubClientKey(t));
        }
      }
      forall i | IsLast(subs, i) && subs[i].qos > 0
        ensures clientId in Fields(r, SubClientKey(subs[i].topic))
        ensures Fields(r, SubClientKey(subs[i].topic))[clientId] == env.subscriptions.encode(subs[i])
      {
        assert IsLastDurable(subs, i);
        assert Agree(d, r, SubClientKey(subs[i].topic));
      }
    }
  }

  // ------------------------------------------------------------- remove

  /** The client-hash fields a removal names, one per subscription. */
  function FieldsOf(subs: seq<Subscription>, field: Subscription -> string): set<string> {
    set i | 0 <= i < |subs| :: field(subs[i])
  }

  lemma FieldsOfSnoc(subs: seq<Subscription>, field: Subscription -> string)
    requires 0 < |subs|
    ensures FieldsOf(subs, field) == FieldsOf(subs[..|subs| - 1], field) + {field(subs[|subs| - 1])}
  {
    var init := subs[..|subs| - 1];
    forall f | f in FieldsOf(subs, field) ensures f in FieldsOf(init, field) + {field(subs[|subs| - 1])} {
      var i :| 0 <= i < |subs| && field(subs[i]) == f;
      if i < |init| {
        assert init[i] == subs[i];
      }
    }
    forall f | f in FieldsOf(init, field) ensures f in FieldsOf(subs, field) {
      var i :| 0 <= i < |init| && field(init[i]) == f;
      assert subs[i] == init[i];
    }
  }

  /** What the removal of `subs` left in the hashes, relative to `db`. */
  ghost predicate Removed(db: Db, r: Db, clientId: string, subs: seq<Subscription>, field: Subscription -> string) {
    ReverseRemoved(db, r, clientId, subs) && AggregateRemoved(db, r, clientId, subs, field)
  }

  /** The client's reverse entries for the listed topics are gone; nothing else in the reverse index changed. */
  ghost predicate ReverseRemoved(db: Db, r: Db, clientId: string, subs: seq<Subscription>) {
    && (forall i :: 0 <= i < |subs| ==> clientId !in Fields(r, SubClientKey(subs[i].topic)))
    && (forall t :: t !in Topics(subs) ==> Fields(r, SubClientKey(t)) == Fields(db, SubClientKey(t)))
    && OthersKept(db, r, clientId)
  }

  /** The named fields are gone from the client's hash; no other key outside the reverse index changed. */
  ghost predicate AggregateRemoved(db: Db, r: Db, clientId: string, subs: seq<Subscription>, field: Subscription -> string) {
    && Fields(r, ClientSubKey(clientId)) == Fields(db, ClientSubKey(clientId)) - FieldsOf(subs, field)
    && (forall c :: c != clientId ==> Agree(db, r, ClientSubKey(c)))
    && (forall k :: !IsHashSpace(NamespaceOf(k)) ==> Agree(db, r, k))
  }

  /**
   * The commands removeSubscriptions queues for each subscription, in order:
   * `HDEL sub:client:<topic> <clientId>` and `HDEL client:sub:<clientId> <field>`, where
   * `field` is what the second command names. Returns the store and the replies of the
   * reverse-index deletions.
   */
  function RemoveEach(db: Db, clientId: string, subs: seq<Subscription>, field: Subscription -> string): (r: (Db, seq<Reply>))
    ensures |r.1| == |subs|
    ensures Removed(db, r.0, clientId, subs, field)
    ensures WellTyped(db) ==> WellTyped(r.0)
  {
    if |subs| == 0 then
      assert FieldsOf(subs, field) == {} && Topics(subs) == {};
      (db, [])
    else
      var (d, replies) := RemoveEach(db, clientId, subs[..|subs| - 1], field);
      var s := subs[|subs| - 1];
      var (reply, d1) := HDel(d, SubClientKey(s.topic), clientId);
      var d2 := HDel(d1, ClientSubKey(clientId), field(s)).1;
      RemoveStep(db, d, d1, d2, clientId, subs, field);
      (d2, replies + [reply])
  }

  lemma RemoveStep(db: Db, d: Db, d1: Db, d2: Db, clientId: string, subs: seq<Subscription>, field: Subscription -> string)
    requires 0 < |subs| && Removed(db, d, clientId, subs[..|subs| - 1], field)
    requires d1 == HDel(d, SubClientKey(subs[|subs| - 1].topic), clientId).1
    requires d2 == HDel(d1, ClientSubKey(clientId), field(subs[|subs| - 1])).1
    ensures Removed(db, d2, clientId, subs, field)
  {
    forall t ensures Fields(d2, SubClientKey(t)) == Fields(d1, SubClientKey(t)) {
      assert Agree(d1, d2, SubClientKey(t));
    }
    RemoveStepReverse(db, d, d1, d2, clientId, subs);
    RemoveStepAggregate(db, d, d1, d2, clientId, subs, field);
  }

  lemma RemoveStepReverse(db: Db, d: Db, d1: Db, d2: Db, clientId: string, subs: seq<Subscription>)
    requires 0 < |subs| && ReverseRemoved(db, d, clientId, subs[..|subs| - 1])
    requires d1 == HDel(d, SubClientKey(subs[|subs| - 1].topic), clientId).1
    requires forall t :: Fields(d2, SubClientKey(t)) == Fields(d1, SubClientKey(t))
    ensures ReverseRemoved(db, d2, clientId, subs)
  {
    RemoveStepGone(db, d, d1, d2, clientId, subs);
    RemoveStepKept(db, d, d1, d2, clientId, subs);
  }

  /** After the step every listed topic's reverse hash lacks the client. */
  lemma RemoveStepGone(db: Db, d: Db, d1: Db, d2: Db, clientId: string, subs: seq<Subscription>)
    requires 0 < |subs| && ReverseRemoved(db, d, clientId, subs[..|subs| - 1])
    requires d1 == HDel(d, SubClientKey(subs[|subs| - 1].topic), clientId).1
    requires forall t :: Fields(d2, SubClientKey(t)) == Fields(d1, SubClientKey(t))
    ensures forall i :: 0 <= i < |subs| ==> clientId !in Fields(d2, SubClientKey(subs[i].topic))
  {
    var init := subs[..|subs| - 1];
    var key := SubClientKey(subs[|subs| - 1].topic);
    forall i | 0 <= i < |subs| ensures clientId !in Fields(d2, SubClientKey(subs[i].topic)) {
      if i < |init| {
        assert init[i] == subs[i];
        assert SubClientKey(subs[i].topic) == key || Agree(d, d1, SubClientKey(subs[i].topic));
      }
    }
  }

  /** After the step the reverse hashes are as before but for the client, and unlisted topics are untouched. */
  lemma RemoveStepKept(db: Db, d: Db, d1: Db, d2: Db, clientId: string, subs: seq<Subscription>)
    requires 0 < |subs| && ReverseRemoved(db, d, clientId, subs[..|subs| - 1])
    requires d1 == HDel(d, SubClientKey(subs[|subs| - 1].topic), clientId).1
    requires forall t :: Fields(d2, SubClientKey(t)) == Fields(d1, SubClientKey(t))
    ensures OthersKept(db, d2, clientId)
    ensures forall t :: t !in Topics(subs) ==> Fields(d2, SubClientKey(t)) == Fields(db, SubClientKey(t))
  {
    var key := SubClientKey(subs[|subs| - 1].topic);
    TopicsSnoc(subs);
    forall t ensures Fields(d2, SubClientKey(t)) - {clientId} == Fields(db, SubClientKey(t)) - {clientId} {
      if SubClientKey(t) == key {
        assert Fields(d1, key) - {clientId} == Fields(d, key) - {clientId};
      } else {
        assert Agree(d, d1, SubClientKey(t));
      }
    }
    forall t | t !in Topics(subs) ensures Fields(d2, SubClientKey(t)) == Fields(db, SubClientKey(t)) {
      assert Agree(d, d1, SubClientKey(t));
    }
  }

  lemma RemoveStepAggregate(db: Db, d: Db, d1: Db, d2: Db, clientId: string, subs: seq<Subscription>, field: Subscription -> string)
    requires 0 < |subs| && AggregateRemoved(db, d, clientId, subs[..|subs| - 1], field)
    requires d1 == HDel(d, SubClientKey(subs[|subs| - 1].topic), clientId).1
    requires d2 == HDel(d1, ClientSubKey(clientId), field(subs[|subs| - 1])).1
    ensures AggregateRemoved(db, d2, clientId, subs, field)
  {
    RemoveStepFields(db, d, d1, d2, clientId, subs, field);
    forall c | c != clientId ensures Agree(db, d2, ClientSubKey(c)) {
      assert Agree(d, d1, ClientSubKey(c)) && Agree(d1, d2, ClientSubKey(c));
    }
    forall k | !IsHashSpace(NamespaceOf(k)) ensures Agree(db, d2, k) {
      assert Agree(d, d1, k) && Agree(d1, d2, k);
    }
  }

  /** After the step the client's hash has lost one more field. */
  lemma RemoveStepFields(db: Db, d: Db, d1: Db, d2: Db, clientId: string, subs: seq<Subscription>, field: Subscription -> string)
    requires 0 < |subs|
    requires Fields(d, ClientSubKey(clientId)) == Fields(db, ClientSubKey(clientId)) - FieldsOf(subs[..|subs| - 1], field)
    requires d1 == HDel(d, SubClientKey(subs[|subs| - 1].topic), clientId).1
    requires d2 == HDel(d1, ClientSubKey(clientId), field(subs[|subs| - 1])).1
    ensures Fields(d2, ClientSubKey(clientId)) == Fields(db, ClientSubKey(clientId)) - FieldsOf(subs, field)
  {
    var agg := ClientSubKey(clientId);
    FieldsOfSnoc(subs, field);
    assert Fields(d1, agg) == Fields(d, agg) by {
      assert Agree(d, d1, agg);
    }
  }

  /** How many replies `skip` counts. */
  function CountWhere(replies: seq<Reply>, skip: Reply -> bool): (n: nat)
    ensures n <= |replies|
  {
    if |replies| == 0 then 0
    else CountWhere(replies[..|replies| - 1], skip) + (if skip(replies[|replies| - 1]) then 1 else 0)
  }

  /**
   * removeSubscriptions, deleting the field `field(sub)` from the client's hash. `aborted`
   * stands for EXEC reporting an error, which reaches the callback before any counter
   * changes. Which replies count as skipped is the test `skip`: line 148 compares each
   * `[err, reply]` pair of the reverse-index HDELs with `'0'`, which never holds, so as written
   * `skip` is always false (see `Views.SkipAsWritten`). The subscriptions counter drops by the number of
   * subscriptions less the skipped ones, so by between none and all of them; the clients
   * counter stays as it is.
   */
  function RemoveSubscriptionsWith(db: Db, clientId: string, subs: seq<Subscription>, field: Subscription -> string,
                                   skip: Reply -> bool, aborted: bool): (r: Result<Db, Error>)
    ensures r.Failure? <==> aborted
    ensures r.Success? ==> ReverseRemoved(db, r.value, clientId, subs)
    ensures r.Success? ==> Fields(r.value, ClientSubKey(clientId)) == Fields(db, ClientSubKey(clientId)) - FieldsOf(subs, field)
    ensures r.Success? ==> forall c :: c != clientId ==> Agree(db, r.value, ClientSubKey(c))
    ensures r.Success? ==> forall k :: !IsHashSpace(NamespaceOf(k)) && k != OfflineSubscriptionsKey ==> Agree(db, r.value, k)
    ensures r.Success? && IsCounter(db, OfflineSubscriptionsKey) ==>
      && CounterOf(db, OfflineSubscriptionsKey) - |subs| <= CounterOf(r.value, OfflineSubscriptionsKey)
      && CounterOf(r.value, OfflineSubscriptionsKey) <= CounterOf(db, OfflineSubscriptionsKey)
    ensures r.Success? && IsCounter(db, OfflineSubscriptionsKey) ==>
      var skipped := CountWhere(RemoveEach(db, clientId, subs, field).1, skip);
      CounterOf(r.value, OfflineSubscriptionsKey) == CounterOf(db, OfflineSubscriptionsKey) - (|subs| - skipped)
    ensures r.Success? && WellTyped(db) ==> WellTyped(r.value)
  {
    if aborted then Failure(ExecFailed)
    else
      var (d, replies) := RemoveEach(db, clientId, subs, field);
      var skipped := CountWhere(replies, skip);
      var r := IncrBy(d, OfflineSubscriptionsKey, -(|subs| - skipped));
      RemoveCounter(db, d, r, clientId, subs, field, skipped);
      Success(r)
  }

  /** The decrement after the removals: the counter drops by the unskipped count, and the hashes stay as removed. */
  lemma RemoveCounter(db: Db, d: Db, r: Db, clientId: string, subs: seq<Subscription>, field: Subscription -> string, skipped: nat)
    requires Removed(db, d, clientId, subs, field) && (WellTyped(db) ==> WellTyped(d))
    requires r == IncrBy(d, OfflineSubscriptionsKey, -(|subs| - skipped))
    ensures ReverseRemoved(db, r, clientId, subs)
    ensures Fields(r, ClientSubKey(clientId)) == Fields(db, ClientSubKey(clientId)) - FieldsOf(subs, field)
    ensures forall c :: c != clientId ==> Agree(db, r, ClientSubKey(c))
    ensures forall k :: !IsHashSpace(NamespaceOf(k)) && k != OfflineSubscriptionsKey ==> Agree(db, r, k)
    ensures IsCounter(db, OfflineSubscriptionsKey) ==>
      CounterOf(r, OfflineSubscriptionsKey) == CounterOf(db, OfflineSubscriptionsKey) - (|subs| - skipped)
    ensures WellTyped(db) ==> WellTyped(r)
  {
    CounterNamespaces();
    RemoveCounterOnly(db, d, r, clientId, subs, field);
    assert Agree(db, d, OfflineSubscriptionsKey);
  }

  /** The counter update after the removals changes no hash. */
  lemma RemoveCounterOnly(db: Db, d: Db, r: Db, clientId: string, subs: seq<Subscription>, field: Subscription -> string)
    requires NamespaceOf(OfflineSubscriptionsKey) == OfflineSubscriptions
    requires Removed(db, d, clientId, subs, field)
    requires forall k :: k != OfflineSubscriptionsKey ==> Agree(d, r, k)
    ensures ReverseRemoved(db, r, clientId, subs)
    ensures Fields(r, ClientSubKey(clientId)) == Fields(d, ClientSubKey(clientId))
    ensures forall c :: c != clientId ==> Agree(db, r, ClientSubKey(c))
    ensures forall k :: !IsHashSpace(NamespaceOf(k)) && k != OfflineSubscriptionsKey ==> Agree(db, r, k)
  {
    forall t ensures Fields(r, SubClientKey(t)) == Fields(d, SubClientKey(t)) {
      assert Agree(d, r, SubClientKey(t));
    }
    assert Agree(d, r, ClientSubKey(clientId));
    forall c | c != clientId ensures Agree(db, r, ClientSubKey(c)) {
      assert Agree(db, d, ClientSubKey(c)) && Agree(d, r, ClientSubKey(c));
    }
    forall k | !IsHashSpace(NamespaceOf(k)) && k != OfflineSubscriptionsKey ensures Agree(db, r, k) {
      assert Agree(db, d, k) && Agree(d, r, k);
    }
  }

  /** The field line 139 names: the subscription object itself, which reaches Redis as `[object Object]`. */
  function ObjectField(sub: Subscription): string {
    "[object Object]"
  }

  /** The field removeSubscriptions evidently means: the subscription's topic. */
  function TopicField(sub: Subscription): string {
    sub.topic
  }

  /**
   * removeSubscriptions as written: the reverse entries go, but the client's hash only
   * loses a field named `[object Object]`, whatever the subscriptions.
   */
  function RemoveSubscriptionsAsWritten(db: Db, clientId: string, subs: seq<Subscription>, skip: Reply -> bool, aborted: bool): (r: Result<Db, Error>)
    ensures r.Failure? <==> aborted
    ensures r.Success? ==> forall i :: 0 <= i < |subs| ==> clientId !in Fields(r.value, SubClientKey(subs[i].topic))
    ensures r.Success? && 0 < |subs| ==>
      Fields(r.value, ClientSubKey(clientId)) == Fields(db, ClientSubKey(clientId)) - {"[object Object]"}
    ensures r.Success? && WellTyped(db) ==> WellTyped(r.value)
  {
    assert 0 < |subs| ==> FieldsOf(subs, ObjectField) == {"[object Object]"} by {
      if 0 < |subs| {
        assert ObjectField(subs[0]) in FieldsOf(subs, ObjectField);
      }
    }
    RemoveSubscriptionsWith(db, clientId, subs, ObjectField, skip, aborted)
  }

  /**
   * removeSubscriptions with the client's hash field corrected to the topic: both views lose
   * the listed topics, and nothing else in either changes.
   */
  function RemoveSubscriptions(db: Db, clientId: string, subs: seq<Subscription>, skip: Reply -> bool, aborted: bool): (r: Result<Db, Error>)
    ensures r.Failure? <==> aborted
    ensures r.Success? ==> ReverseRemoved(db, r.value, clientId, subs)
    ensures r.Success? ==> Fields(r.value, ClientSubKey(clientId)) == Fields(db, ClientSubKey(clientId)) - Topics(subs)
    ensures r.Success? && WellTyped(db) ==> WellTyped(r.value)
  {
    assert FieldsOf(subs, TopicField) == Topics(subs) by {
      forall t | t in Topics(subs) ensures t in FieldsOf(subs, TopicField) {
        var i :| 0 <= i < |subs| && subs[i].topic == t;
        assert TopicField(subs[i]) == t;
      }
    }
    RemoveSubscriptionsWith(db, clientId, subs, TopicField, skip, aborted)
  }
  // -------------------------------------------------------------- clean

  /** The reverse-index keys of a set of topics. */
  function ReverseKeys(topics: set<string>): (keys: set<string>)
    ensures forall t :: SubClientKey(t) in keys <==> t in topics
    ensures forall k :: k in keys ==> NamespaceOf(k) == TopicSubscribers
  {
    set t | t in topics :: SubClientKey(t)
  }

  /**
   * cleanSubscriptions: reads the client's hash, then deletes it and the client's entry in
   * the reverse index of every topic the hash named. A hash key holding a string makes the
   * read fail and nothing changes. Neither counter moves.
   */
  function CleanSubscriptions(db: Db, clientId: string): (r: Result<Db, Error>)
    ensures r.Failure? <==> !HashOrAbsent(db, ClientSubKey(clientId))
    ensures r.Success? ==> ClientSubKey(clientId) !in r.value
    ensures r.Success? ==> forall t :: t in Fields(db, ClientSubKey(clientId)) ==> clientId !in Fields(r.value, SubClientKey(t))
    ensures r.Success? ==> forall t :: t !in Fields(db, ClientSubKey(clientId)) ==> Fields(r.value, SubClientKey(t)) == Fields(db, SubClientKey(t))
    ensures r.Success? ==> OthersKept(db, r.value, clientId)
    ensures r.Success? ==> forall c :: c != clientId ==> Agree(db, r.value, ClientSubKey(c))
    ensures r.Success? ==> forall k :: !IsHashSpace(NamespaceOf(k)) ==> Agree(db, r.value, k)
    ensures r.Success? && WellTyped(db) ==> WellTyped(r.value)
  {
    var key := ClientSubKey(clientId);
    if !HashOrAbsent(db, key) then Failure(WrongType)
    else
      var topics := Fields(db, key).Keys;
      var d := Del(db, key);
      var r := DropField(d, ReverseKeys(topics), clientId);
      CleanSteps(db, clientId, d, r);
      Success(r)
  }

  lemma CleanSteps(db: Db, clientId: string, d: Db, r: Db)
    requires d == Del(db, ClientSubKey(clientId))
    requires r == DropField(d, ReverseKeys(Fields(db, ClientSubKey(clientId)).Keys), clientId)
    ensures ClientSubKey(clientId) !in r
    ensures forall t :: t in Fields(db, ClientSubKey(clientId)) ==> clientId !in Fields(r, SubClientKey(t))
    ensures forall t :: t !in Fields(db, ClientSubKey(clientId)) ==> Fields(r, SubClientKey(t)) == Fields(db, SubClientKey(t))
    ensures OthersKept(db, r, clientId)
    ensures forall c :: c != clientId ==> Agree(db, r, ClientSubKey(c))
    ensures forall k :: !IsHashSpace(NamespaceOf(k)) ==> Agree(db, r, k)
  {
    var topics := Fields(db, ClientSubKey(clientId)).Keys;
    CleanReverse(db, clientId, topics, d, r);
    CleanOthers(db, clientId, ReverseKeys(topics), d, r);
  }

  lemma CleanReverse(db: Db, clientId: string, topics: set<string>, d: Db, r: Db)
    requires d == Del(db, ClientSubKey(clientId))
    requires r == DropField(d, ReverseKeys(topics), clientId)
    ensures forall t :: t in topics ==> clientId !in Fields(r, SubClientKey(t))
    ensures forall t :: t !in topics ==> Fields(r, SubClientKey(t)) == Fields(db, SubClientKey(t))
    ensures OthersKept(db, r, clientId)
  {
    forall t ensures Fields(d, SubClientKey(t)) == Fields(db, SubClientKey(t)) {
      assert Agree(db, d, SubClientKey(t));
    }
    forall t ensures Fields(r, SubClientKey(t)) - {clientId} == Fields(db, SubClientKey(t)) - {clientId} {
      if t in topics {
        assert Fields(r, SubClientKey(t)) - {clientId} == Fields(d, SubClientKey(t)) - {clientId};
      } else {
        assert Agree(d, r, SubClientKey(t));
      }
    }
    forall t | t !in topics ensures Fields(r, SubClientKey(t)) == Fields(db, SubClientKey(t)) {
      assert Agree(d, r, SubClientKey(t));
    }
  }

  lemma CleanOthers(db: Db, clientId: string, keys: set<string>, d: Db, r: Db)
    requires forall k :: k in keys ==> NamespaceOf(k) == TopicSubscribers
    requires d == Del(db, ClientSubKey(clientId))
    requires r == DropField(d, keys, clientId)
    ensures ClientSubKey(clientId) !in r
    ensures forall c :: c != clientId ==> Agree(db, r, ClientSubKey(c))
    ensures forall k :: !IsHashSpace(NamespaceOf(k)) ==> Agree(db, r, k)
  {
    var key := ClientSubKey(clientId);
    assert key !in keys;
    assert Agree(d, r, key);
    forall c | c != clientId ensures Agree(db, r, ClientSubKey(c)) {
      assert ClientSubKey(c) !in keys;
      assert Agree(db, d, ClientSubKey(c)) && Agree(d, r, ClientSubKey(c));
    }
    forall k | !IsHashSpace(NamespaceOf(k)) ensures Agree(db, r, k) {
      assert k !in keys;
      assert Agree(db, d, k) && Agree(d, r, k);
    }
  }
}
