/**
 * The reads of the subscription store: a client's subscriptions, the subscribers whose
 * pattern matches a topic, and the two offline counters.
 */
module Lookups {
  import opened Wrappers
  import opened Text
  import Glob
  import opened Records
  import opened Keys
  import opened Store
  import opened Subscriptions

  // ---------------------------------------------------------- by client

  /**
   * subscriptionsByClient: each topic of the client's hash with its qos read back by
   * `parseInt` (`None` for `NaN`), or `None` (null) when the client has no subscription.
   */
  function SubscriptionsByClient(db: Db, clientId: string): (r: Result<Option<map<string, Option<int>>>, Error>)
    ensures r.Failure? <==> !HashOrAbsent(db, ClientSubKey(clientId))
    ensures r.Success? ==> (r.value.None? <==> Fields(db, ClientSubKey(clientId)) == map[])
    ensures r.Success? && r.value.Some? ==> r.value.value.Keys == Fields(db, ClientSubKey(clientId)).Keys
    ensures r.Success? && r.value.Some? ==> forall t :: t in r.value.value ==>
      r.value.value[t] == ParseInt(Fields(db, ClientSubKey(clientId))[t])
  {
    var fields :- HGetAll(db, ClientSubKey(clientId));
    if fields == map[] then Success(None)
    else Success(Some(map t | t in fields :: ParseInt(fields[t])))
  }

  /**
   * After addSubscriptions, subscriptionsByClient lists the client's earlier topics and
   * every listed topic, each listed one with the qos of its last subscription.
   */
  lemma AddThenByClient(env: Env, db: Db, clientId: string, subs: seq<Subscription>)
    requires WellTyped(db) && 0 < |subs|
    ensures var r := SubscriptionsByClient(AddSubscriptions(env, db, clientId, subs), clientId);
      && r.Success? && r.value.Some?
      && r.value.value.Keys == Fields(db, ClientSubKey(clientId)).Keys + Topics(subs)
      && forall i :: IsLast(subs, i) ==> r.value.value[subs[i].topic] == Some(subs[i].qos)
  {
    var d := AddSubscriptions(env, db, clientId, subs);
    WellTypedKinds(db, ClientSubKey(clientId));
    WellTypedKinds(d, ClientSubKey(clientId));
    assert subs[0].topic in Fields(d, ClientSubKey(clientId));
    forall i | IsLast(subs, i) ensures ParseInt(Fields(d, ClientSubKey(clientId))[subs[i].topic]) == Some(subs[i].qos) {
      ParseIntText(subs[i].qos);
    }
  }

  // ----------------------------------------------------------- by topic

  /** A subscriber as subscriptionsByTopic reports it: the decoded record, stamped with the client id. */
  datatype Subscriber = Subscriber(topic: string, qos: int, clientId: string)

  function Decoded(env: Env, text: string, clientId: string): Subscriber {
    var s := env.subscriptions.decode(text);
    Subscriber(s.topic, s.qos, clientId)
  }

  /** The glob subscriptionsByTopic scans with. */
  const ReverseGlob := SubClientPrefix + "*"

  /** The scan `sub:client:*` finds exactly the reverse-index keys. */
  lemma ReverseGlobSelects(k: string)
    ensures Glob.Match(ReverseGlob, k) <==> StartsWith(k, SubClientPrefix)
  {
    assert Glob.Plain(SubClientPrefix);
    Glob.PlainScan(SubClientPrefix, k);
  }

  /**
   * The reverse-index keys whose stored pattern matches `topic`: a Qlobber holding only the
   * key's pattern is asked about the topic (the reverse of the retained filter).
   */
  function MatchingPatterns(env: Env, db: Db, topic: string): (keys: set<string>)
    ensures keys <= db.Keys
    ensures forall k :: k in keys ==> k == SubClientKey(Drop(k, |SubClientPrefix|)) && env.matches(Drop(k, |SubClientPrefix|), topic)
    ensures forall t :: SubClientKey(t) in db && env.matches(t, topic) ==> SubClientKey(t) in keys
  {
    var keys := set k | k in Scan(db, ReverseGlob) && env.matches(Drop(k, |SubClientPrefix|), topic);
    assert forall k :: k in keys ==> k == SubClientKey(Drop(k, |SubClientPrefix|)) by {
      forall k | k in keys ensures k == SubClientKey(Drop(k, |SubClientPrefix|)) {
        ReverseGlobSelects(k);
        PrefixDrop(k, SubClientPrefix);
      }
    }
    assert forall t :: SubClientKey(t) in db && env.matches(t, topic) ==> SubClientKey(t) in keys by {
      forall t | SubClientKey(t) in db && env.matches(t, topic) ensures SubClientKey(t) in keys {
        ReverseGlobSelects(SubClientKey(t));
      }
    }
    keys
  }

  /**
   * subscriptionsByTopic: one subscriber per client entry of every reverse-index hash whose
   * pattern matches the topic, decoded and stamped with the client id. A matching key that
   * holds a string makes the stream fail.
   */
  function SubscriptionsByTopic(env: Env, db: Db, topic: string): (r: Result<set<Subscriber>, Error>)
    ensures r.Failure? <==> exists t :: SubClientKey(t) in db && env.matches(t, topic) && db[SubClientKey(t)].Str?
    ensures r.Success? ==> forall s :: s in r.value ==> exists t ::
      && env.matches(t, topic) && s.clientId in Fields(db, SubClientKey(t))
      && s == Decoded(env, Fields(db, SubClientKey(t))[s.clientId], s.clientId)
    ensures r.Success? ==> forall t, c :: env.matches(t, topic) && c in Fields(db, SubClientKey(t)) ==>
      Decoded(env, Fields(db, SubClientKey(t))[c], c) in r.value
  {
    var keys := MatchingPatterns(env, db, topic);
    if exists k :: k in keys && db[k].Str? then
      StringPattern(env, db, topic);
      Failure(WrongType)
    else
      var found := set k, c | k in keys && c in db[k].fields :: Decoded(env, db[k].fields[c], c);
      FoundSound(env, db, topic, found);
      Success(found)
  }

  /** A matching reverse-index key that holds a string is the key of a matching pattern. */
  lemma StringPattern(env: Env, db: Db, topic: string)
    requires exists k :: k in MatchingPatterns(env, db, topic) && db[k].Str?
    ensures exists t :: SubClientKey(t) in db && env.matches(t, topic) && db[SubClientKey(t)].Str?
  {
    var k :| k in MatchingPatterns(env, db, topic) && db[k].Str?;
    assert k == SubClientKey(Drop(k, |SubClientPrefix|));
  }

  /** Every subscriber gathered from the matching hashes is a client entry of a matching pattern. */
  lemma FoundSound(env: Env, db: Db, topic: string, found: set<Subscriber>)
    requires forall k :: k in MatchingPatterns(env, db, topic) ==> db[k].Hash?
    requires found == set k, c | k in MatchingPatterns(env, db, topic) && c in db[k].fields :: Decoded(env, db[k].fields[c], c)
    ensures forall s :: s in found ==> exists t ::
      && env.matches(t, topic) && s.clientId in Fields(db, SubClientKey(t))
      && s == Decoded(env, Fields(db, SubClientKey(t))[s.clientId], s.clientId)
  {
    var keys := MatchingPatterns(env, db, topic);
    forall s | s in found ensures exists t ::
      && env.matches(t, topic) && s.clientId in Fields(db, SubClientKey(t))
      && s == Decoded(env, Fields(db, SubClientKey(t))[s.clientId], s.clientId)
    {
      var k, c :| k in keys && c in db[k].fields && s == Decoded(env, db[k].fields[c], c);
      var t := Drop(k, |SubClientPrefix|);
      assert k == SubClientKey(t);
    }
  }

  /**
   * After addSubscriptions, subscriptionsByTopic on any topic that a durable subscription's
   * pattern matches reports that subscription for the client, as subscribed.
   */
  lemma AddThenByTopic(env: Env, db: Db, clientId: string, subs: seq<Subscription>, i: int, topic: string)
    requires WellTyped(db) && Lawful(env.subscriptions) && 0 < |subs|
    requires IsLastDurable(subs, i) && env.matches(subs[i].topic, topic)
    ensures var r := SubscriptionsByTopic(env, AddSubscriptions(env, db, clientId, subs), topic);
      r.Success? && Subscriber(subs[i].topic, subs[i].qos, clientId) in r.value
  {
    var d := AddSubscriptions(env, db, clientId, subs);
    WellTypedReverseHashes(db);
    WellTypedReverseHashes(d);
    var t := subs[i].topic;
    assert clientId in Fields(d, SubClientKey(t)) && Fields(d, SubClientKey(t))[clientId] == env.subscriptions.encode(subs[i]);
    ByTopicFinds(env, d, topic, t, clientId);
  }

  /** In a store whose reverse keys all hold hashes, subscriptionsByTopic succeeds and reports every matching entry. */
  lemma ByTopicFinds(env: Env, db: Db, topic: string, t: string, clientId: string)
    requires ReverseHashes(db)
    requires env.matches(t, topic) && clientId in Fields(db, SubClientKey(t))
    ensures var r := SubscriptionsByTopic(env, db, topic);
      r.Success? && Decoded(env, Fields(db, SubClientKey(t))[clientId], clientId) in r.value
  {
    assert forall t :: SubClientKey(t) in db ==> db[SubClientKey(t)].Hash? by {
      forall t | SubClientKey(t) in db ensures db[SubClientKey(t)].Hash? {
        assert HashOrAbsent(db, SubClientKey(t));
      }
    }
  }

  // ------------------------------------------------------------ counters

  /** The outcome of countOffline: the callback's two counts, or no callback at all. */
  datatype Offline = Counts(subscriptions: int, clients: Option<int>) | NoCallback

  /** `parseInt` of a GET reply; `parseInt(null)` is `NaN`. */
  function ParseReply(v: Option<string>): Option<int> {
    if v.None? then None else ParseInt(v.value)
  }

  /**
   * countOffline as written: GET of both counters in one pipeline. An error on either
   * reaches the callback; otherwise the callback runs, from the second reply, only when the
   * first parsed to a number `>= 0` (the `-1` that marks "not yet arrived" and `NaN` both fail
   * that test).
   */
  function CountOfflineAsWritten(db: Db): (r: Result<Offline, Error>)
    ensures r.Failure? <==> Get(db, OfflineSubscriptionsKey).Failure? || Get(db, OfflineClientsKey).Failure?
    ensures r.Success? && r.value.Counts? ==> r.value.subscriptions >= 0
    ensures WellTyped(db) ==>
      r.Success? && (r.value.Counts? <==> OfflineSubscriptionsKey in db && CounterOf(db, OfflineSubscriptionsKey) >= 0)
    ensures WellTyped(db) && r.Success? && r.value.Counts? ==>
      && r.value.subscriptions == CounterOf(db, OfflineSubscriptionsKey)
      && r.value.clients == (if OfflineClientsKey in db then Some(CounterOf(db, OfflineClientsKey)) else None)
  {
    CounterReply(db, OfflineSubscriptionsKey);
    CounterReply(db, OfflineClientsKey);
    var subs :- Get(db, OfflineSubscriptionsKey);
    var clients :- Get(db, OfflineClientsKey);
    var n := ParseReply(subs);
    if n.Some? && n.value >= 0 then Success(Counts(n.value, ParseReply(clients))) else Success(NoCallback)
  }

  /**
   * countOffline with a missing counter read as 0, as INCRBY treats it: once both replies
   * arrive without error, the callback runs.
   */
  function CountOffline(db: Db): (r: Result<Offline, Error>)
    ensures r.Failure? <==> Get(db, OfflineSubscriptionsKey).Failure? || Get(db, OfflineClientsKey).Failure?
    ensures r.Success? ==> r.value.Counts?
  {
    var subs :- Get(db, OfflineSubscriptionsKey);
    var clients :- Get(db, OfflineClientsKey);
    var n := if subs.None? then Some(0) else ParseInt(subs.value);
    var m := if clients.None? then Some(0) else ParseInt(clients.value);
    Success(Counts(if n.Some? then n.value else 0, m))
  }

  /** In a well-typed store a counter's GET succeeds and parses to its value, or to `NaN` when absent. */
  lemma CounterReply(db: Db, key: string)
    requires key == OfflineSubscriptionsKey || key == OfflineClientsKey
    ensures WellTyped(db) ==>
      Get(db, key).Success? && ParseReply(Get(db, key).value) == if key in db then Some(CounterOf(db, key)) else None
  {
    CounterNamespaces();
    if WellTyped(db) {
      WellTypedKinds(db, key);
      if key in db {
        CounterReadsBack(db, key);
      }
    }
  }

  /** A counter's text reads back as its value. */
  lemma CounterReadsBack(db: Db, key: string)
    requires key in db && db[key].Str? && CanonicalInt(db[key].text).Some?
    ensures ParseInt(db[key].text) == Some(CounterOf(db, key))
  {
    ParseIntText(CounterOf(db, key));
  }

  /** In a well-typed store, countOffline reports the two counters, a missing one as 0. */
  lemma CountOfflineReadsCounters(db: Db)
    requires WellTyped(db)
    ensures CountOffline(db) == Success(Counts(CounterOf(db, OfflineSubscriptionsKey), Some(CounterOf(db, OfflineClientsKey))))
  {
    CounterNamespaces();
    WellTypedKinds(db, OfflineSubscriptionsKey);
    WellTypedKinds(db, OfflineClientsKey);
    if OfflineSubscriptionsKey in db {
      CounterReadsBack(db, OfflineSubscriptionsKey);
    }
    if OfflineClientsKey in db {
      CounterReadsBack(db, OfflineClientsKey);
    }
  }

  /**
   * As written, countOffline answers with the counters when the subscriptions counter is
   * present and not negative, and never answers on a store without that counter.
   */
  lemma CountOfflineAsWrittenSilence(db: Db)
    requires WellTyped(db)
    ensures OfflineSubscriptionsKey !in db ==> CountOfflineAsWritten(db) == Success(NoCallback)
    ensures CounterOf(db, OfflineSubscriptionsKey) < 0 ==> CountOfflineAsWritten(db) == Success(NoCallback)
    ensures OfflineSubscriptionsKey in db && OfflineClientsKey in db && CounterOf(db, OfflineSubscriptionsKey) >= 0 ==>
      CountOfflineAsWritten(db) == Success(Counts(CounterOf(db, OfflineSubscriptionsKey), Some(CounterOf(db, OfflineClientsKey))))
  {
    CounterNamespaces();
    WellTypedKinds(db, OfflineSubscriptionsKey);
    WellTypedKinds(db, OfflineClientsKey);
    if OfflineSubscriptionsKey in db {
      CounterReadsBack(db, OfflineSubscriptionsKey);
    }
    if OfflineClientsKey in db {
      CounterReadsBack(db, OfflineClientsKey);
    }
  }
}
