/**
 * The Redis keyspace layout: one key family per kind of record, each a fixed prefix
 * followed by identifiers joined with `:`. Every key the layer builds falls in exactly one
 * namespace, so the families never overwrite each other.
 */
module Keys {
  import opened Wrappers
  import opened Text

  const RetainedPrefix := "retained:"
  const ClientSubPrefix := "client:sub:"
  const SubClientPrefix := "sub:client:"
  const OutgoingPrefix := "outgoing:"
  const OutgoingIdPrefix := "outgoing-id:"
  const IncomingPrefix := "incoming:"
  const WillPrefix := "will:"
  const OfflineClientsKey := "counter:offline:clients"
  const OfflineSubscriptionsKey := "counter:offline:subscriptions"

  datatype Namespace =
    | Retained | ClientSubs | TopicSubscribers | Outgoing | OutgoingId | Incoming | Will
    | OfflineClients | OfflineSubscriptions | Foreign

  /** The family a key belongs to, decided by its prefix. */
  function NamespaceOf(key: string): Namespace {
    if StartsWith(key, RetainedPrefix) then Retained
    else if StartsWith(key, ClientSubPrefix) then ClientSubs
    else if StartsWith(key, SubClientPrefix) then TopicSubscribers
    else if StartsWith(key, OutgoingPrefix) then Outgoing
    else if StartsWith(key, OutgoingIdPrefix) then OutgoingId
    else if StartsWith(key, IncomingPrefix) then Incoming
    else if StartsWith(key, WillPrefix) then Will
    else if key == OfflineClientsKey then OfflineClients
    else if key == OfflineSubscriptionsKey then OfflineSubscriptions
    else Foreign
  }

  /** A key that starts with `p` cannot start with a `q` that differs from `p` at position `i`. */
  lemma Clash(key: string, p: string, q: string, i: nat)
    requires StartsWith(key, p) && i < |p| && i < |q| && p[i] != q[i]
    ensures !StartsWith(key, q)
  {
    assert key[i] == key[..|p|][i];
    if |q| <= |key| {
      assert key[i] == key[..|q|][i];
    }
  }

  /** Keys built on each prefix land in that prefix's family. */
  lemma PrefixedNamespace(p: string, rest: string)
    requires p in {RetainedPrefix, ClientSubPrefix, SubClientPrefix, OutgoingPrefix, OutgoingIdPrefix, IncomingPrefix, WillPrefix}
    ensures p == RetainedPrefix ==> NamespaceOf(p + rest) == Retained
    ensures p == ClientSubPrefix ==> NamespaceOf(p + rest) == ClientSubs
    ensures p == SubClientPrefix ==> NamespaceOf(p + rest) == TopicSubscribers
    ensures p == OutgoingPrefix ==> NamespaceOf(p + rest) == Outgoing
    ensures p == OutgoingIdPrefix ==> NamespaceOf(p + rest) == OutgoingId
    ensures p == IncomingPrefix ==> NamespaceOf(p + rest) == Incoming
    ensures p == WillPrefix ==> NamespaceOf(p + rest) == Will
  {
    var k := p + rest;
    DropPrefix(p, rest);
    if p != RetainedPrefix {
      Clash(k, p, RetainedPrefix, 0);
    }
    if p != ClientSubPrefix {
      Clash(k, p, ClientSubPrefix, 0);
    }
    if p != SubClientPrefix {
      Clash(k, p, SubClientPrefix, 0);
    }
    if p != OutgoingPrefix && p != OutgoingIdPrefix {
      Clash(k, p, OutgoingPrefix, 0);
      Clash(k, p, OutgoingIdPrefix, 0);
    }
    if p == OutgoingIdPrefix {
      Clash(k, p, OutgoingPrefix, 8);
    }
    if p != IncomingPrefix {
      Clash(k, p, IncomingPrefix, 0);
    }
  }

  /** Keys holding hashes. */
  predicate IsHashSpace(ns: Namespace) {
    ns == ClientSubs || ns == TopicSubscribers
  }

  /** Keys holding integer counters. */
  predicate IsCounterSpace(ns: Namespace) {
    ns == OfflineClients || ns == OfflineSubscriptions
  }

  /** Keys holding encoded records. */
  predicate IsRecordSpace(ns: Namespace) {
    ns == Retained || ns == Outgoing || ns == OutgoingId || ns == Incoming || ns == Will
  }

  /** `retained:<topic>`: the retained message of a topic. */
  function RetainedKey(topic: string): (k: string)
    ensures NamespaceOf(k) == Retained
    ensures StartsWith(k, RetainedPrefix) && Drop(k, |RetainedPrefix|) == topic
  {
    DropPrefix(RetainedPrefix, topic);
    PrefixedNamespace(RetainedPrefix, topic);
    RetainedPrefix + topic
  }

  /** `client:sub:<clientId>`: hash of topic -> qos, every subscription of a client. */
  function ClientSubKey(clientId: string): (k: string)
    ensures NamespaceOf(k) == ClientSubs
    ensures StartsWith(k, ClientSubPrefix) && Drop(k, |ClientSubPrefix|) == clientId
  {
    DropPrefix(ClientSubPrefix, clientId);
    PrefixedNamespace(ClientSubPrefix, clientId);
    ClientSubPrefix + clientId
  }

  /** `sub:client:<topic>`: hash of clientId -> encoded subscription, the subscribers of a pattern. */
  function SubClientKey(topic: string): (k: string)
    ensures NamespaceOf(k) == TopicSubscribers
    ensures StartsWith(k, SubClientPrefix) && Drop(k, |SubClientPrefix|) == topic
  {
    DropPrefix(SubClientPrefix, topic);
    PrefixedNamespace(SubClientPrefix, topic);
    SubClientPrefix + topic
  }

  /** `outgoing:<clientId>:<brokerId>:<brokerCounter>`: an outgoing packet's pre-key. */
  function OutgoingKey(clientId: string, brokerId: string, brokerCounter: string): (k: string)
    ensures NamespaceOf(k) == Outgoing
    ensures StartsWith(k, OutgoingPrefix + clientId + ":")
  {
    var rest := clientId + ":" + brokerId + ":" + brokerCounter;
    var k := OutgoingPrefix + clientId + ":" + brokerId + ":" + brokerCounter;
    assert k == OutgoingPrefix + rest;
    assert k == (OutgoingPrefix + clientId + ":") + (brokerId + ":" + brokerCounter);
    DropPrefix(OutgoingPrefix + clientId + ":", brokerId + ":" + brokerCounter);
    PrefixedNamespace(OutgoingPrefix, rest);
    k
  }

  /** `outgoing-id:<clientId>:<messageId>`: an outgoing packet's post-key. */
  function OutgoingIdKey(clientId: string, messageId: string): (k: string)
    ensures NamespaceOf(k) == OutgoingId
  {
    DropPrefix(OutgoingIdPrefix, clientId + ":" + messageId);
    assert OutgoingIdPrefix + clientId + ":" + messageId == OutgoingIdPrefix + (clientId + ":" + messageId);
    PrefixedNamespace(OutgoingIdPrefix, clientId + ":" + messageId);
    OutgoingIdPrefix + clientId + ":" + messageId
  }

  /** `incoming:<clientId>:<messageId>`: an incoming packet awaiting release. */
  function IncomingKey(clientId: string, messageId: string): (k: string)
    ensures NamespaceOf(k) == Incoming
  {
    DropPrefix(IncomingPrefix, clientId + ":" + messageId);
    assert IncomingPrefix + clientId + ":" + messageId == IncomingPrefix + (clientId + ":" + messageId);
    PrefixedNamespace(IncomingPrefix, clientId + ":" + messageId);
    IncomingPrefix + clientId + ":" + messageId
  }

  /** `will:<brokerId>:<clientId>`: the will a broker holds for a client. */
  function WillKey(brokerId: string, clientId: string): (k: string)
    ensures NamespaceOf(k) == Will
  {
    DropPrefix(WillPrefix, brokerId + ":" + clientId);
    assert WillPrefix + brokerId + ":" + clientId == WillPrefix + (brokerId + ":" + clientId);
    PrefixedNamespace(WillPrefix, brokerId + ":" + clientId);
    WillPrefix + brokerId + ":" + clientId
  }

  /** `key.split(':')[1]`, the field a will key carries its owning broker in. */
  function WillKeyBroker(key: string): string {
    var f := SplitField(key, ':', 1);
    if f.Some? then f.value else "undefined"
  }

  /** A will key gives back its broker id, provided the id has no `:` in it. */
  lemma WillKeyBrokerOf(brokerId: string, clientId: string)
    requires ':' !in brokerId
    ensures WillKeyBroker(WillKey(brokerId, clientId)) == brokerId
  {
    assert WillKey(brokerId, clientId) == "will" + [':'] + (brokerId + [':'] + clientId);
    SplitFieldJoin("will", ':', brokerId + [':'] + clientId, 0);
    SplitFieldHead(brokerId, ':', clientId);
  }

  /** Whatever the broker id, a will key's broker field is the id up to its first `:`. */
  lemma WillKeyBrokerField(brokerId: string, clientId: string)
    ensures WillKeyBroker(WillKey(brokerId, clientId)) == UpTo(brokerId, ':')
  {
    assert WillKey(brokerId, clientId) == "will" + [':'] + (brokerId + [':'] + clientId);
    SplitFieldJoin("will", ':', brokerId + [':'] + clientId, 0);
    UpToExtend(brokerId, ':', clientId);
  }

  /** The two counters sit outside every prefixed family. */
  lemma CounterNamespaces()
    ensures NamespaceOf(OfflineClientsKey) == OfflineClients
    ensures NamespaceOf(OfflineSubscriptionsKey) == OfflineSubscriptions
  {
    var keys := [OfflineClientsKey, OfflineSubscriptionsKey];
    forall k | k in keys
      ensures !StartsWith(k, RetainedPrefix) && !StartsWith(k, ClientSubPrefix) && !StartsWith(k, SubClientPrefix)
      ensures !StartsWith(k, OutgoingPrefix) && !StartsWith(k, OutgoingIdPrefix) && !StartsWith(k, IncomingPrefix)
      ensures !StartsWith(k, WillPrefix)
    {
      assert StartsWith(k, "co");
      Clash(k, "co", RetainedPrefix, 0);
      Clash(k, "co", ClientSubPrefix, 1);
      Clash(k, "co", SubClientPrefix, 0);
      Clash(k, "co", OutgoingPrefix, 0);
      Clash(k, "co", OutgoingIdPrefix, 0);
      Clash(k, "co", IncomingPrefix, 0);
      Clash(k, "co", WillPrefix, 0);
    }
  }
}
