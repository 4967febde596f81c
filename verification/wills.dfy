/**
 * Last-will messages: one `will:<brokerId>:<clientId>` string per client per broker. The
 * broker stamps each will with the client's id and its own before storing it, and the will
 * stream lists the wills of every broker not in a given set of live brokers.
 */
module Wills {
  import opened Wrappers
  import opened Text
  import Glob
  import opened Records
  import opened Keys
  import opened Store

  /** The key this broker keeps a client's will under. */
  function WillOf(env: Env, clientId: string): string {
    WillKey(env.brokerId, clientId)
  }

  /** One broker's will keys of two clients are the same exactly when the clients are. */
  lemma WillOfInjective(env: Env, c1: string, c2: string)
    ensures WillOf(env, c1) == WillOf(env, c2) <==> c1 == c2
  {
    var head := WillPrefix + env.brokerId + ":";
    assert WillOf(env, c1) == head + c1;
    assert WillOf(env, c2) == head + c2;
    if head + c1 == head + c2 {
      assert c1 == (head + c1)[|head|..];
      assert c2 == (head + c2)[|head|..];
    }
  }

  /** The will as putWill stores it: stamped with the client's id and this broker's id. */
  function Stamped(env: Env, clientId: string, packet: Packet): (p: Packet)
    ensures p.clientId == Some(clientId) && p.brokerId == Some(env.brokerId)
    ensures p.(clientId := packet.clientId, brokerId := packet.brokerId) == packet
  {
    packet.(clientId := Some(clientId), brokerId := Some(env.brokerId))
  }

  /** putWill: the stamped will, encoded, under the client's will key. No other key changes. */
  function PutWill(env: Env, db: Db, clientId: string, packet: Packet): (r: Db)
    ensures Get(r, WillOf(env, clientId)) == Success(Some(env.packets.encode(Stamped(env, clientId, packet))))
    ensures forall k :: k != WillOf(env, clientId) ==> Agree(db, r, k)
    ensures WellTyped(db) ==> WellTyped(r)
  {
    Set(db, WillOf(env, clientId), env.packets.encode(Stamped(env, clientId, packet))).1
  }

  /** getWill: the client's will, decoded, or `None` (null) when there is none. */
  function GetWill(env: Env, db: Db, clientId: string): (r: Result<Option<Packet>, Error>)
    ensures r.Failure? <==> WillOf(env, clientId) in db && db[WillOf(env, clientId)].Hash?
    ensures r == Success(None) <==> WillOf(env, clientId) !in db
    ensures r.Success? && r.value.Some? ==> r.value.value == env.packets.decode(db[WillOf(env, clientId)].text)
  {
    var found :- Get(db, WillOf(env, clientId));
    if found.None? then Success(None) else Success(Some(env.packets.decode(found.value)))
  }

  /**
   * delWill: reads the will and deletes its key in one pipeline. The callback first hears
   * what the read found — the will, null, or the read's error — and the key is gone either
   * way.
   */
  function DelWill(env: Env, db: Db, clientId: string): (r: (Result<Option<Packet>, Error>, Db))
    ensures r.0 == GetWill(env, db, clientId)
    ensures WillOf(env, clientId) !in r.1
    ensures forall k :: k != WillOf(env, clientId) ==> Agree(db, r.1, k)
    ensures WellTyped(db) ==> WellTyped(r.1)
  {
    (GetWill(env, db, clientId), Del(db, WillOf(env, clientId)))
  }

  // ------------------------------------------------------------- stream

  /** The SCAN glob streamWill sends. */
  const WillGlob := WillPrefix + "*"

  /** The glob selects exactly the `will:` keys. */
  lemma WillGlobSelects(k: string)
    ensures Glob.Match(WillGlob, k) <==> StartsWith(k, WillPrefix)
  {
    assert WillPrefix == ['w', 'i', 'l', 'l', ':'];
    Glob.PlainScan(WillPrefix, k);
  }

  /** A will key streamWill passes on: no live-broker set, or its broker field is not in it. */
  predicate Orphaned(brokers: Option<set<string>>, key: string) {
    brokers.None? || WillKeyBroker(key) !in brokers.value
  }

  /** A will written by broker `brokerId` is passed on iff no set is given or the id up to its first `:` is not live. */
  lemma OrphanedWillKey(brokers: Option<set<string>>, brokerId: string, clientId: string)
    ensures Orphaned(brokers, WillKey(brokerId, clientId)) <==> brokers.None? || UpTo(brokerId, ':') !in brokers.value
    ensures ':' !in brokerId ==>
      (Orphaned(brokers, WillKey(brokerId, clientId)) <==> brokers.None? || brokerId !in brokers.value)
  {
    WillKeyBrokerField(brokerId, clientId);
    if ':' !in brokerId {
      WillKeyBrokerOf(brokerId, clientId);
    }
  }

  /**
   * streamWill: the wills under every `will:` key whose broker field (the text after the
   * first `:`) is not one of the live brokers, decoded; all of them when no set is given.
   * `brokers` is the set of ids the broker map holds a truthy entry for.
   */
  function StreamWill(env: Env, db: Db, brokers: Option<set<string>>): (r: Result<map<string, Packet>, Error>)
    ensures r.Success? ==> forall k :: k in r.value <==> k in db && StartsWith(k, WillPrefix) && Orphaned(brokers, k)
    ensures r.Success? ==> forall k :: k in r.value ==> db[k].Str? && r.value[k] == env.packets.decode(db[k].text)
    ensures WellTyped(db) ==> r.Success?
  {
    var keys := set k | k in Scan(db, WillGlob) && Orphaned(brokers, k);
    assert forall k :: k in keys <==> k in db && StartsWith(k, WillPrefix) && Orphaned(brokers, k) by {
      forall k ensures k in keys <==> k in db && StartsWith(k, WillPrefix) && Orphaned(brokers, k) {
        WillGlobSelects(k);
      }
    }
    assert WellTyped(db) ==> forall k :: k in keys ==> db[k].Str? by {
      forall k | k in keys && WellTyped(db) ensures db[k].Str? {
        PrefixDrop(k, WillPrefix);
        PrefixedNamespace(WillPrefix, Drop(k, |WillPrefix|));
      }
    }
    FetchRecords(db, keys, env.packets)
  }

  // ------------------------------------------------------------- lemmas

  /** A stored will reads back stamped; the wills of other clients read as before. */
  lemma PutThenGet(env: Env, db: Db, clientId: string, packet: Packet, other: string)
    requires Lawful(env.packets)
    ensures GetWill(env, PutWill(env, db, clientId, packet), clientId) == Success(Some(Stamped(env, clientId, packet)))
    ensures other != clientId ==> GetWill(env, PutWill(env, db, clientId, packet), other) == GetWill(env, db, other)
  {
    var d := PutWill(env, db, clientId, packet);
    assert d[WillOf(env, clientId)].text == env.packets.encode(Stamped(env, clientId, packet));
    WillOfInjective(env, clientId, other);
    assert other != clientId ==> Agree(db, d, WillOf(env, other));
  }

  /** After delWill the client has no will, and a second delWill reports none. */
  lemma DelThenGet(env: Env, db: Db, clientId: string)
    ensures var d := DelWill(env, db, clientId).1;
      GetWill(env, d, clientId) == Success(None) && DelWill(env, d, clientId).0 == Success(None)
  {
  }

  /**
   * A will key is a `will:` key whose broker field is the broker id up to its first `:` —
   * all of it when the id holds no `:`.
   */
  lemma WillOfShape(env: Env, clientId: string)
    ensures StartsWith(WillOf(env, clientId), WillPrefix)
    ensures WillKeyBroker(WillOf(env, clientId)) == UpTo(env.brokerId, ':')
    ensures ':' !in env.brokerId ==> WillKeyBroker(WillOf(env, clientId)) == env.brokerId
  {
    WillKeyBrokerField(env.brokerId, clientId);
    if ':' !in env.brokerId {
      WillKeyBrokerOf(env.brokerId, clientId);
    }
    DropPrefix(WillPrefix, env.brokerId + ":" + clientId);
    assert WillOf(env, clientId) == WillPrefix + (env.brokerId + ":" + clientId);
  }

  /**
   * A will this broker stores is streamed exactly when the broker field of its key — this
   * broker's id up to its first `:` — is not among the live ones; for an id without `:`,
   * exactly when this broker is not live.
   */
  lemma PutThenStream(env: Env, db: Db, clientId: string, packet: Packet, brokers: Option<set<string>>)
    requires Lawful(env.packets) && WellTyped(db)
    ensures var r := StreamWill(env, PutWill(env, db, clientId, packet), brokers);
      && r.Success?
      && (WillOf(env, clientId) in r.value <==> brokers.None? || UpTo(env.brokerId, ':') !in brokers.value)
      && (':' !in env.brokerId ==> (WillOf(env, clientId) in r.value <==> brokers.None? || env.brokerId !in brokers.value))
      && (WillOf(env, clientId) in r.value ==> r.value[WillOf(env, clientId)] == Stamped(env, clientId, packet))
  {
    var d := PutWill(env, db, clientId, packet);
    WillOfShape(env, clientId);
    StreamedWill(env, d, WillOf(env, clientId), brokers);
  }

  /** A `will:` key holding a string is streamed iff its broker is not live, as what it holds, decoded. */
  lemma StreamedWill(env: Env, db: Db, key: string, brokers: Option<set<string>>)
    requires WellTyped(db) && key in db && db[key].Str? && StartsWith(key, WillPrefix)
    ensures var r := StreamWill(env, db, brokers);
      && r.Success?
      && (key in r.value <==> Orphaned(brokers, key))
      && (key in r.value ==> r.value[key] == env.packets.decode(db[key].text))
  {
  }
}
