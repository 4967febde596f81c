/**
 * The outgoing queue of a client. A packet queued for delivery waits under its pre-key,
 * `outgoing:<client>:<brokerId>:<brokerCounter>`; once it has been sent with a message id, the
 * update writes it under that pre-key and under its post-key, `outgoing-id:<client>:<messageId>`;
 * the acknowledgement clears both. An update that only knows the message id reads the
 * broker fields back from the post-key.
 */
module Outgoing {
  import opened Wrappers
  import opened Text
  import Glob
  import opened Records
  import opened Keys
  import opened Store

  /** The pre-key: the packet named by the broker that published it and that broker's counter. */
  function PreKey(clientId: string, packet: Packet): (k: string)
    ensures NamespaceOf(k) == Outgoing && StartsWith(k, OutgoingPrefix + clientId + ":")
  {
    OutgoingKey(clientId, JsText(packet.brokerId), JsNumberText(packet.brokerCounter))
  }

  /** The post-key: the packet named by the message id it was sent with. */
  function PostKey(clientId: string, packet: Packet): (k: string)
    ensures NamespaceOf(k) == OutgoingId
  {
    OutgoingIdKey(clientId, IntText(packet.messageId))
  }

  /** The post-key of message id `m`, whatever packet carries it. */
  function PostKeyOf(clientId: string, m: int): string {
    OutgoingIdKey(clientId, IntText(m))
  }

  /** A client's post-keys coincide exactly when the message ids do. */
  lemma PostKeyInjective(clientId: string, p: Packet, q: Packet)
    ensures PostKey(clientId, p) == PostKey(clientId, q) <==> p.messageId == q.messageId
  {
    PostKeyOfInjective(clientId, p.messageId, q.messageId);
  }

  lemma PostKeyOfInjective(clientId: string, m: int, n: int)
    ensures PostKeyOf(clientId, m) == PostKeyOf(clientId, n) <==> m == n
  {
    var head := OutgoingIdPrefix + clientId + ":";
    var a := IntText(m);
    var b := IntText(n);
    assert PostKeyOf(clientId, m) == head + a;
    assert PostKeyOf(clientId, n) == head + b;
    if head + a == head + b {
      assert a == (head + a)[|head|..];
      assert b == (head + b)[|head|..];
      IntTextInjective(m, n);
    }
  }

  /** Keys that agree read the same. */
  lemma AgreeGet(db: Db, r: Db, key: string)
    requires Agree(db, r, key)
    ensures Get(r, key) == Get(db, key)
  {
  }

  /** SET of two record keys, one after the other: both hold the text, nothing else changes. */
  lemma SetBoth(db: Db, k1: string, k2: string, text: string)
    requires k1 != k2 && IsRecordSpace(NamespaceOf(k1)) && IsRecordSpace(NamespaceOf(k2))
    ensures var r := Set(Set(db, k1, text).1, k2, text).1;
      && Get(r, k1) == Success(Some(text)) && Get(r, k2) == Success(Some(text))
      && (forall k :: k != k1 && k != k2 ==> Agree(db, r, k))
      && (WellTyped(db) ==> WellTyped(r))
  {
    var d := Set(db, k1, text).1;
    var r := Set(d, k2, text).1;
    AgreeGet(d, r, k1);
    forall k | k != k1 && k != k2 ensures Agree(db, r, k) {
      assert Agree(db, d, k) && Agree(d, r, k);
    }
  }

  /** DEL of two keys, one after the other: both are gone, nothing else changes. */
  lemma DelBoth(db: Db, k1: string, k2: string)
    ensures var r := Del(Del(db, k1), k2);
      && k1 !in r && k2 !in r
      && (forall k :: k != k1 && k != k2 ==> Agree(db, r, k))
      && (WellTyped(db) ==> WellTyped(r))
  {
    var d := Del(db, k1);
    var r := Del(d, k2);
    forall k | k != k1 && k != k2 ensures Agree(db, r, k) {
      assert Agree(db, d, k) && Agree(d, r, k);
    }
  }

  /**
   * outgoingEnqueue: the packet, rebuilt by the packet constructor, waits under its pre-key
   * for the subscriber. No other key changes.
   */
  function OutgoingEnqueue(env: Env, db: Db, subscriberId: string, packet: Packet): (r: Db)
    ensures Get(r, PreKey(subscriberId, packet)) == Success(Some(env.packets.encode(env.repack(packet))))
    ensures forall k :: k != PreKey(subscriberId, packet) ==> Agree(db, r, k)
    ensures WellTyped(db) ==> WellTyped(r)
  {
    Set(db, PreKey(subscriberId, packet), env.packets.encode(env.repack(packet))).1
  }

  /**
   * The message id the GET of persistence.js:263 finds under the pre-key, when its callback
   * goes on to delete that id's post-key: a string holding a packet whose message id is > 0.
   * A missing key, or a hash (the GET fails), deletes nothing.
   */
  function StaleId(env: Env, db: Db, prekey: string): Option<int> {
    if prekey in db && db[prekey].Str? && env.packets.decode(db[prekey].text).messageId > 0 then
      Some(env.packets.decode(db[prekey].text).messageId)
    else None
  }

  /**
   * The MULTI of updateWithBrokerData: SET of the packet under its post-key, then under its
   * pre-key. The `no such packet` error is reserved for a first reply other than `OK`, which
   * SET never gives.
   */
  function UpdateBoth(env: Env, db: Db, clientId: string, packet: Packet): (r: Result<Db, Error>)
    ensures r.Success?
    ensures Get(r.value, PostKey(clientId, packet)) == Success(Some(env.packets.encode(packet)))
    ensures Get(r.value, PreKey(clientId, packet)) == Success(Some(env.packets.encode(packet)))
    ensures forall k :: k != PostKey(clientId, packet) && k != PreKey(clientId, packet) ==> Agree(db, r.value, k)
    ensures WellTyped(db) ==> WellTyped(r.value)
  {
    var text := env.packets.encode(packet);
    var first := Set(db, PostKey(clientId, packet), text);
    var d := Set(first.1, PreKey(clientId, packet), text).1;
    SetBoth(db, PostKey(clientId, packet), PreKey(clientId, packet), text);
    if first.0 != "OK" then Failure(NoSuchPacket("no such packet")) else Success(d)
  }

  /** The post-key the GET's callback deletes as written: that of the message id it found. */
  predicate StaleDeleted(env: Env, db: Db, clientId: string, packet: Packet, k: string) {
    var stale := StaleId(env, db, PreKey(clientId, packet));
    stale.Some? && k == PostKeyOf(clientId, stale.value)
  }

  /**
   * The post-key updateWithBrokerData evidently means to delete: that of the message id found
   * under the pre-key, when it differs from the new one.
   */
  predicate Superseded(env: Env, db: Db, clientId: string, packet: Packet, k: string) {
    StaleDeleted(env, db, clientId, packet, k) && StaleId(env, db, PreKey(clientId, packet)).value != packet.messageId
  }

  /** A DEL after the MULTI of updateWithBrokerData, of a key that is neither of the packet's keys. */
  lemma DelAfterUpdate(env: Env, db: Db, d: Db, clientId: string, packet: Packet, s: string)
    requires NamespaceOf(s) == OutgoingId && s != PostKey(clientId, packet)
    requires d == UpdateBoth(env, db, clientId, packet).value
    ensures var r := Del(d, s);
      && s !in r
      && Get(r, PostKey(clientId, packet)) == Success(Some(env.packets.encode(packet)))
      && Get(r, PreKey(clientId, packet)) == Success(Some(env.packets.encode(packet)))
      && (forall k :: k != PostKey(clientId, packet) && k != PreKey(clientId, packet) && k != s ==> Agree(db, r, k))
      && (WellTyped(db) ==> WellTyped(r))
  {
    var r := Del(d, s);
    AgreeGet(d, r, PostKey(clientId, packet));
    AgreeGet(d, r, PreKey(clientId, packet));
    forall k | k != PostKey(clientId, packet) && k != PreKey(clientId, packet) && k != s ensures Agree(db, r, k) {
      assert Agree(db, d, k) && Agree(d, r, k);
    }
  }

  /**
   * updateWithBrokerData as written. The GET of the pre-key is sent before the MULTI, so it
   * reads the store as it was; the DEL its callback issues is sent only once the GET has
   * answered, after the MULTI and its EXEC are on the connection, so it runs last. When the
   * packet found carries the same message id, that DEL removes the post-key just written.
   */
  function UpdateWithBrokerDataAsWritten(env: Env, db: Db, clientId: string, packet: Packet): (r: Result<Db, Error>)
    ensures r.Success?
    ensures Get(r.value, PreKey(clientId, packet)) == Success(Some(env.packets.encode(packet)))
    ensures StaleDeleted(env, db, clientId, packet, PostKey(clientId, packet)) ==> PostKey(clientId, packet) !in r.value
    ensures !StaleDeleted(env, db, clientId, packet, PostKey(clientId, packet)) ==>
      Get(r.value, PostKey(clientId, packet)) == Success(Some(env.packets.encode(packet)))
    ensures forall k :: StaleDeleted(env, db, clientId, packet, k) ==> k !in r.value
    ensures forall k :: k != PostKey(clientId, packet) && k != PreKey(clientId, packet) && !StaleDeleted(env, db, clientId, packet, k) ==>
      Agree(db, r.value, k)
    ensures WellTyped(db) ==> WellTyped(r.value)
  {
    var d := UpdateBoth(env, db, clientId, packet).value;
    var stale := StaleId(env, db, PreKey(clientId, packet));
    if stale.Some? then
      var s := PostKeyOf(clientId, stale.value);
      if s == PostKey(clientId, packet) then
        var r := Del(d, s);
        assert forall k :: k != PostKey(clientId, packet) && k != PreKey(clientId, packet) ==> Agree(db, r, k) by {
          forall k | k != PostKey(clientId, packet) && k != PreKey(clientId, packet) ensures Agree(db, r, k) {
            assert Agree(db, d, k) && Agree(d, r, k);
          }
        }
        AgreeGet(d, r, PreKey(clientId, packet));
        Success(r)
      else
        DelAfterUpdate(env, db, d, clientId, packet, s);
        Success(Del(d, s))
    else Success(d)
  }

  /**
   * updateWithBrokerData as meant: both keys hold the packet, and the post-key of a message id
   * the pre-key held before, if different, is gone. No other key changes.
   */
  function UpdateWithBrokerData(env: Env, db: Db, clientId: string, packet: Packet): (r: Result<Db, Error>)
    ensures r.Success?
    ensures Get(r.value, PostKey(clientId, packet)) == Success(Some(env.packets.encode(packet)))
    ensures Get(r.value, PreKey(clientId, packet)) == Success(Some(env.packets.encode(packet)))
    ensures forall k :: Superseded(env, db, clientId, packet, k) ==> k !in r.value
    ensures forall k :: k != PostKey(clientId, packet) && k != PreKey(clientId, packet) && !Superseded(env, db, clientId, packet, k) ==>
      Agree(db, r.value, k)
    ensures WellTyped(db) ==> WellTyped(r.value)
  {
    var d := UpdateBoth(env, db, clientId, packet).value;
    var stale := StaleId(env, db, PreKey(clientId, packet));
    if stale.Some? && stale.value != packet.messageId then
      var s := PostKeyOf(clientId, stale.value);
      PostKeyOfInjective(clientId, stale.value, packet.messageId);
      DelAfterUpdate(env, db, d, clientId, packet, s);
      Success(Del(d, s))
    else Success(d)
  }

  /**
   * augmentWithBrokerData: the packet stored under the post-key lends its broker id and
   * counter; every other field stays. A missing post-key fails with the message
   * `no suck packet`, spelled as the source spells it.
   */
  function AugmentWithBrokerData(env: Env, db: Db, clientId: string, packet: Packet): (r: Result<Packet, Error>)
    ensures Get(db, PostKey(clientId, packet)).Failure? ==> r.Failure?
    ensures Get(db, PostKey(clientId, packet)) == Success(None) ==> r == Failure(NoSuchPacket("no suck packet"))
    ensures r.Success? ==> PostKey(clientId, packet) in db && db[PostKey(clientId, packet)].Str?
    ensures r.Success? ==>
      var stored := env.packets.decode(db[PostKey(clientId, packet)].text);
      && r.value.brokerId == stored.brokerId
      && r.value.brokerCounter == stored.brokerCounter
      && r.value.(brokerId := packet.brokerId, brokerCounter := packet.brokerCounter) == packet
  {
    var found :- Get(db, PostKey(clientId, packet));
    if found.None? then Failure(NoSuchPacket("no suck packet"))
    else
      var stored := env.packets.decode(found.value);
      Success(packet.(brokerId := stored.brokerId, brokerCounter := stored.brokerCounter))
  }

  /**
   * outgoingUpdate: a packet that carries a broker id is written under both keys as it is;
   * one without first takes the broker fields from its post-key. The result is the store and
   * the packet as the callback sees it.
   */
  function OutgoingUpdate(env: Env, db: Db, clientId: string, packet: Packet): (r: Result<(Db, Packet), Error>)
    ensures Truthy(packet.brokerId) ==> r.Success? && r.value.1 == packet
    ensures !Truthy(packet.brokerId) ==> (r.Success? <==> AugmentWithBrokerData(env, db, clientId, packet).Success?)
    ensures r.Success? ==> r.value.1.messageId == packet.messageId
    ensures r.Success? ==>
      && Get(r.value.0, PostKey(clientId, r.value.1)) == Success(Some(env.packets.encode(r.value.1)))
      && Get(r.value.0, PreKey(clientId, r.value.1)) == Success(Some(env.packets.encode(r.value.1)))
      && (forall k :: Superseded(env, db, clientId, r.value.1, k) ==> k !in r.value.0)
      && forall k :: k != PostKey(clientId, r.value.1) && k != PreKey(clientId, r.value.1) && !Superseded(env, db, clientId, r.value.1, k) ==>
        Agree(db, r.value.0, k)
  {
    var sent :- if Truthy(packet.brokerId) then Success(packet) else AugmentWithBrokerData(env, db, clientId, packet);
    Success((UpdateWithBrokerData(env, db, clientId, sent).value, sent))
  }

  /**
   * outgoingUpdate as written: the same, with the as-written updateWithBrokerData, whose late
   * DEL removes the post-key of the message id found under the pre-key, even when that is the
   * post-key just written.
   */
  function OutgoingUpdateAsWritten(env: Env, db: Db, clientId: string, packet: Packet): (r: Result<(Db, Packet), Error>)
    ensures Truthy(packet.brokerId) ==> r.Success? && r.value.1 == packet
    ensures !Truthy(packet.brokerId) ==> (r.Success? <==> AugmentWithBrokerData(env, db, clientId, packet).Success?)
    ensures r.Success? ==> r.value.1.messageId == packet.messageId
    ensures r.Success? ==>
      && Get(r.value.0, PreKey(clientId, r.value.1)) == Success(Some(env.packets.encode(r.value.1)))
      && (PostKey(clientId, r.value.1) in r.value.0 <==> !StaleDeleted(env, db, clientId, r.value.1, PostKey(clientId, r.value.1)))
      && forall k :: k != PostKey(clientId, r.value.1) && k != PreKey(clientId, r.value.1) && !StaleDeleted(env, db, clientId, r.value.1, k) ==>
        Agree(db, r.value.0, k)
  {
    var sent :- if Truthy(packet.brokerId) then Success(packet) else AugmentWithBrokerData(env, db, clientId, packet);
    Success((UpdateWithBrokerDataAsWritten(env, db, clientId, sent).value, sent))
  }

  /**
   * outgoingClearMessageId: reads the packet under the post-key and deletes that key and the
   * pre-key rebuilt from the stored packet. A missing post-key fails with `no suck packet`
   * and changes nothing.
   */
  function OutgoingClearMessageId(env: Env, db: Db, clientId: string, packet: Packet): (r: Result<Db, Error>)
    ensures r.Success? <==> PostKey(clientId, packet) in db && db[PostKey(clientId, packet)].Str?
    ensures PostKey(clientId, packet) !in db ==> r == Failure(NoSuchPacket("no suck packet"))
    ensures r.Success? ==>
      var stored := env.packets.decode(db[PostKey(clientId, packet)].text);
      && PostKey(clientId, packet) !in r.value
      && PreKey(clientId, stored) !in r.value
      && forall k :: k != PostKey(clientId, packet) && k != PreKey(clientId, stored) ==> Agree(db, r.value, k)
    ensures r.Success? && WellTyped(db) ==> WellTyped(r.value)
  {
    var found :- Get(db, PostKey(clientId, packet));
    if found.None? then Failure(NoSuchPacket("no suck packet"))
    else
      var stored := env.packets.decode(found.value);
      DelBoth(db, PostKey(clientId, packet), PreKey(clientId, stored));
      Success(Del(Del(db, PostKey(clientId, packet)), PreKey(clientId, stored)))
  }

  // ------------------------------------------------------------- stream

  /** The SCAN glob outgoingStream sends: the client's pre-keys, the id spliced in unescaped. */
  function OutgoingGlob(clientId: string): string {
    OutgoingPrefix + clientId + ":*"
  }

  lemma PlainOutgoingPrefix()
    ensures Glob.Plain(OutgoingPrefix)
  {
    assert OutgoingPrefix == ['o', 'u', 't', 'g', 'o', 'i', 'n', 'g', ':'];
  }

  /** Every key the outgoing glob selects is a pre-key. */
  lemma OutgoingGlobSelects(clientId: string, k: string)
    requires Glob.Match(OutgoingGlob(clientId), k)
    ensures NamespaceOf(k) == Outgoing
  {
    PlainOutgoingPrefix();
    assert OutgoingGlob(clientId) == OutgoingPrefix + (clientId + ":*");
    Glob.PlainThen(OutgoingPrefix, clientId + ":*", k);
    PrefixDrop(k, OutgoingPrefix);
    PrefixedNamespace(OutgoingPrefix, Drop(k, |OutgoingPrefix|));
  }

  /** For a client id without glob characters the glob selects exactly the keys behind `outgoing:<client>:`. */
  lemma OutgoingGlobPlain(clientId: string, k: string)
    requires Glob.Plain(clientId)
    ensures Glob.Match(OutgoingGlob(clientId), k) <==> StartsWith(k, OutgoingPrefix + clientId + ":")
  {
    var lit := OutgoingPrefix + clientId + ":";
    PlainOutgoingPrefix();
    assert forall i :: 0 <= i < |lit| ==> !Glob.IsMeta(lit[i]) by {
      forall i | 0 <= i < |lit| ensures !Glob.IsMeta(lit[i]) {
        if i < |OutgoingPrefix| {
          assert lit[i] == OutgoingPrefix[i];
        } else if i < |OutgoingPrefix| + |clientId| {
          assert lit[i] == clientId[i - |OutgoingPrefix|];
        }
      }
    }
    assert OutgoingGlob(clientId) == lit + "*";
    Glob.PlainScan(lit, k);
  }

  /**
   * outgoingStream: the packets of every key the glob selects, decoded. In a well-typed store
   * it never fails; for a client id without glob characters it holds every pre-key of the
   * client, and only keys behind `outgoing:<client>:`.
   */
  function OutgoingStream(env: Env, db: Db, clientId: string): (r: Result<map<string, Packet>, Error>)
    ensures r.Success? ==> forall k :: k in r.value ==>
      k in db && Glob.Match(OutgoingGlob(clientId), k) && db[k].Str? && r.value[k] == env.packets.decode(db[k].text)
    ensures r.Success? && Glob.Plain(clientId) ==>
      forall k :: k in r.value <==> k in db && StartsWith(k, OutgoingPrefix + clientId + ":")
    ensures WellTyped(db) ==> r.Success?
  {
    var keys := Scan(db, OutgoingGlob(clientId));
    assert WellTyped(db) ==> forall k :: k in keys ==> db[k].Str? by {
      forall k | k in keys && WellTyped(db) ensures db[k].Str? {
        OutgoingGlobSelects(clientId, k);
      }
    }
    assert Glob.Plain(clientId) ==> forall k :: k in keys <==> k in db && StartsWith(k, OutgoingPrefix + clientId + ":") by {
      forall k | Glob.Plain(clientId) ensures k in keys <==> k in db && StartsWith(k, OutgoingPrefix + clientId + ":") {
        OutgoingGlobPlain(clientId, k);
      }
    }
    FetchRecords(db, keys, env.packets)
  }

  /** The glob outgoingStream means to send: the client's key prefix with its glob characters escaped. */
  function OutgoingGlobCorrected(clientId: string): string {
    Glob.Escape(OutgoingPrefix + clientId + ":") + "*"
  }

  /**
   * outgoingStream with the client id escaped in its glob: exactly the keys behind
   * `outgoing:<client>:`, decoded, whatever characters the id holds; it never fails on a
   * well-typed store.
   */
  function OutgoingStreamCorrected(env: Env, db: Db, clientId: string): (r: Result<map<string, Packet>, Error>)
    ensures r.Success? ==> forall k :: k in r.value <==> k in db && StartsWith(k, OutgoingPrefix + clientId + ":")
    ensures r.Success? ==> forall k :: k in r.value ==> db[k].Str? && r.value[k] == env.packets.decode(db[k].text)
    ensures WellTyped(db) ==> r.Success?
  {
    var keys := Scan(db, OutgoingGlobCorrected(clientId));
    assert forall k :: k in keys <==> k in db && StartsWith(k, OutgoingPrefix + clientId + ":") by {
      forall k ensures k in keys <==> k in db && StartsWith(k, OutgoingPrefix + clientId + ":") {
        Glob.EscapedScan(OutgoingPrefix + clientId + ":", k);
      }
    }
    assert WellTyped(db) ==> forall k :: k in keys ==> db[k].Str? by {
      forall k | k in keys && WellTyped(db) ensures db[k].Str? {
        ClientPrefixedIsOutgoing(clientId, k);
      }
    }
    FetchRecords(db, keys, env.packets)
  }

  /** A key behind `outgoing:<client>:` is an outgoing pre-key. */
  lemma ClientPrefixedIsOutgoing(clientId: string, k: string)
    requires StartsWith(k, OutgoingPrefix + clientId + ":")
    ensures NamespaceOf(k) == Outgoing
  {
    assert OutgoingPrefix + clientId + ":" == OutgoingPrefix + (clientId + ":");
    StartsWithShorter(k, OutgoingPrefix, clientId + ":");
    PrefixDrop(k, OutgoingPrefix);
    PrefixedNamespace(OutgoingPrefix, Drop(k, |OutgoingPrefix|));
  }

  // ------------------------------------------------------------- lemmas

  /** A queued packet appears in its subscriber's outgoing stream, as the packet constructor rebuilt it. */
  lemma EnqueueThenStream(env: Env, db: Db, subscriberId: string, packet: Packet)
    requires Lawful(env.packets) && WellTyped(db) && Glob.Plain(subscriberId)
    ensures var r := OutgoingStream(env, OutgoingEnqueue(env, db, subscriberId, packet), subscriberId);
      && r.Success?
      && PreKey(subscriberId, packet) in r.value
      && r.value[PreKey(subscriberId, packet)] == env.repack(packet)
  {
    var d := OutgoingEnqueue(env, db, subscriberId, packet);
    var key := PreKey(subscriberId, packet);
    assert StartsWith(key, OutgoingPrefix + subscriberId + ":");
    assert d[key].text == env.packets.encode(env.repack(packet));
  }

  /** With the escaped glob a queued packet appears in its subscriber's stream whatever the subscriber's id. */
  lemma EnqueueThenStreamCorrected(env: Env, db: Db, subscriberId: string, packet: Packet)
    requires Lawful(env.packets) && WellTyped(db)
    ensures var r := OutgoingStreamCorrected(env, OutgoingEnqueue(env, db, subscriberId, packet), subscriberId);
      && r.Success?
      && PreKey(subscriberId, packet) in r.value
      && r.value[PreKey(subscriberId, packet)] == env.repack(packet)
  {
    var d := OutgoingEnqueue(env, db, subscriberId, packet);
    var key := PreKey(subscriberId, packet);
    assert StartsWith(key, OutgoingPrefix + subscriberId + ":");
    assert d[key].text == env.packets.encode(env.repack(packet));
  }

  /**
   * As written, a subscriber whose id holds a `[` never sees its own queued packets: the glob
   * `outgoing:a[b]:*` reads `[b]` as a class of one character, `b`, which does not match the
   * `[` of the key `outgoing:a[b]:...`. The corrected stream finds the packet.
   */
  lemma AsWrittenMissesBracketClient(env: Env, db: Db, packet: Packet)
    requires Lawful(env.packets) && WellTyped(db)
    ensures var r := OutgoingStream(env, OutgoingEnqueue(env, db, "a[b]", packet), "a[b]");
      r.Success? && PreKey("a[b]", packet) !in r.value
    ensures var r := OutgoingStreamCorrected(env, OutgoingEnqueue(env, db, "a[b]", packet), "a[b]");
      r.Success? && PreKey("a[b]", packet) in r.value
  {
    BracketClientGlobMisses(PreKey("a[b]", packet));
    EnqueueThenStreamCorrected(env, db, "a[b]", packet);
  }

  /** The glob `outgoing:a[b]:*` selects no key behind `outgoing:a[b]:`. */
  lemma BracketClientGlobMisses(key: string)
    requires StartsWith(key, OutgoingPrefix + "a[b]" + ":")
    ensures !Glob.Match(OutgoingGlob("a[b]"), key)
  {
    var lit := OutgoingPrefix + "a";
    PlainOutgoingPrefix();
    assert Glob.Plain(lit) by {
      forall i | 0 <= i < |lit| ensures !Glob.IsMeta(lit[i]) {
        if i < |OutgoingPrefix| {
          assert lit[i] == OutgoingPrefix[i];
        }
      }
    }
    assert OutgoingGlob("a[b]") == lit + "[b]:*";
    Glob.PlainThen(lit, "[b]:*", key);
    assert (OutgoingPrefix + "a[b]" + ":")[|lit|] == '[';
    ClassMissesOpenBracket(key[|lit|..]);
  }

  /** The class `[b]` does not match a `[`. */
  lemma ClassMissesOpenBracket(s: string)
    requires 0 < |s| && s[0] == '['
    ensures !Glob.Match("[b]:*", s)
  {
    assert Glob.ClassItems("]:*", '[') == (false, ":*");
    assert Glob.ClassItems("b]:*", '[') == (false, ":*");
  }

  /**
   * Sending a packet and acknowledging it: the update writes both keys and the clear removes
   * both. The post-key of an earlier message id the update superseded is gone too; every
   * other key is as it was.
   */
  lemma UpdateThenClear(env: Env, db: Db, clientId: string, packet: Packet)
    requires Lawful(env.packets) && Truthy(packet.brokerId)
    ensures var u := OutgoingUpdate(env, db, clientId, packet);
      && u.Success?
      && var r := OutgoingClearMessageId(env, u.value.0, clientId, packet);
      && r.Success?
      && PostKey(clientId, packet) !in r.value
      && PreKey(clientId, packet) !in r.value
      && (forall k :: Superseded(env, db, clientId, packet, k) ==> k !in r.value)
      && forall k :: k != PostKey(clientId, packet) && k != PreKey(clientId, packet) && !Superseded(env, db, clientId, packet, k) ==>
        Agree(db, r.value, k)
  {
    var d := OutgoingUpdate(env, db, clientId, packet).value.0;
    assert d[PostKey(clientId, packet)].text == env.packets.encode(packet);
    var r := OutgoingClearMessageId(env, d, clientId, packet).value;
    forall k | k != PostKey(clientId, packet) && k != PreKey(clientId, packet) && !Superseded(env, db, clientId, packet, k)
      ensures Agree(db, r, k)
    {
      assert Agree(db, d, k) && Agree(d, r, k);
    }
  }

  /**
   * The whole life of an outgoing packet: queued, sent with the same broker data and a message
   * id, acknowledged. Neither of its keys is left, nor the post-key of a different message id
   * the queued packet carried; every other key is as before.
   */
  lemma EnqueueUpdateClear(env: Env, db: Db, clientId: string, queued: Packet, sent: Packet)
    requires Lawful(env.packets) && Truthy(sent.brokerId)
    requires sent.brokerId == queued.brokerId && sent.brokerCounter == queued.brokerCounter
    ensures var d := OutgoingEnqueue(env, db, clientId, queued);
      var u := OutgoingUpdate(env, d, clientId, sent);
      && u.Success?
      && var r := OutgoingClearMessageId(env, u.value.0, clientId, sent);
      && r.Success?
      && PreKey(clientId, queued) !in r.value
      && PostKey(clientId, sent) !in r.value
      && (forall k :: Superseded(env, d, clientId, sent, k) ==> k !in r.value)
      && forall k :: k != PostKey(clientId, sent) && k != PreKey(clientId, queued) && !Superseded(env, d, clientId, sent, k) ==>
        Agree(db, r.value, k)
  {
    var d := OutgoingEnqueue(env, db, clientId, queued);
    assert PreKey(clientId, sent) == PreKey(clientId, queued);
    UpdateThenClear(env, d, clientId, sent);
    var r := OutgoingClearMessageId(env, OutgoingUpdate(env, d, clientId, sent).value.0, clientId, sent).value;
    forall k | k != PostKey(clientId, sent) && k != PreKey(clientId, queued) && !Superseded(env, d, clientId, sent, k)
      ensures Agree(db, r, k)
    {
      assert Agree(db, d, k) && Agree(d, r, k);
    }
  }

  /** A cleared message id cannot be cleared again. */
  lemma ClearTwice(env: Env, db: Db, clientId: string, packet: Packet)
    requires OutgoingClearMessageId(env, db, clientId, packet).Success?
    ensures var d := OutgoingClearMessageId(env, db, clientId, packet).value;
      OutgoingClearMessageId(env, d, clientId, packet) == Failure(NoSuchPacket("no suck packet"))
  {
  }

  /**
   * After a packet is sent with its broker data, an update that carries only the message id
   * recovers the broker id and counter and so writes the same pre-key again.
   */
  lemma UpdateRecoversBrokerData(env: Env, db: Db, clientId: string, sent: Packet, ack: Packet)
    requires Lawful(env.packets) && Truthy(sent.brokerId)
    requires !Truthy(ack.brokerId) && ack.messageId == sent.messageId
    ensures var d := OutgoingUpdate(env, db, clientId, sent).value.0;
      var r := OutgoingUpdate(env, d, clientId, ack);
      && r.Success?
      && r.value.1 == ack.(brokerId := sent.brokerId, brokerCounter := sent.brokerCounter)
      && PreKey(clientId, r.value.1) == PreKey(clientId, sent)
  {
    var d := OutgoingUpdate(env, db, clientId, sent).value.0;
    assert PostKey(clientId, ack) == PostKey(clientId, sent);
    assert d[PostKey(clientId, sent)].text == env.packets.encode(sent);
  }

  /**
   * As written, the acknowledgement loses the packet: it is sent (an update with broker data
   * and message id `m`), then a second update carrying only `m` (the PUBREL step) reads the
   * broker data back, rewrites both keys, and its late DEL removes the post-key of `m`. The
   * clear that follows finds no post-key, answers `no suck packet`, and leaves the pre-key.
   */
  lemma AsWrittenAckLosesPostKey(env: Env, db: Db, clientId: string, sent: Packet, ack: Packet)
    requires Lawful(env.packets) && Truthy(sent.brokerId) && 0 < sent.messageId
    requires !Truthy(ack.brokerId) && ack.messageId == sent.messageId
    requires StaleId(env, db, PreKey(clientId, sent)).None?
    ensures var u := OutgoingUpdateAsWritten(env, db, clientId, sent);
      && u.Success?
      && PostKey(clientId, sent) in u.value.0
      && var v := OutgoingUpdateAsWritten(env, u.value.0, clientId, ack);
      && v.Success?
      && v.value.1 == ack.(brokerId := sent.brokerId, brokerCounter := sent.brokerCounter)
      && PostKey(clientId, sent) !in v.value.0
      && PreKey(clientId, sent) in v.value.0
      && OutgoingClearMessageId(env, v.value.0, clientId, ack) == Failure(NoSuchPacket("no suck packet"))
  {
    var d := OutgoingUpdateAsWritten(env, db, clientId, sent).value.0;
    assert PostKey(clientId, ack) == PostKey(clientId, sent);
    assert d[PostKey(clientId, sent)].text == env.packets.encode(sent);
    var acked := ack.(brokerId := sent.brokerId, brokerCounter := sent.brokerCounter);
    assert PreKey(clientId, acked) == PreKey(clientId, sent);
    assert PostKey(clientId, acked) == PostKey(clientId, sent);
    assert StaleId(env, d, PreKey(clientId, acked)) == Some(sent.messageId);
  }

  /**
   * With the corrected update, the same exchange keeps the post-key, and the clear that
   * follows removes both keys.
   */
  lemma CorrectedAckThenClear(env: Env, db: Db, clientId: string, sent: Packet, ack: Packet)
    requires Lawful(env.packets) && Truthy(sent.brokerId)
    requires !Truthy(ack.brokerId) && ack.messageId == sent.messageId
    ensures var u := OutgoingUpdate(env, db, clientId, sent);
      && u.Success?
      && var v := OutgoingUpdate(env, u.value.0, clientId, ack);
      && v.Success?
      && v.value.1 == ack.(brokerId := sent.brokerId, brokerCounter := sent.brokerCounter)
      && var r := OutgoingClearMessageId(env, v.value.0, clientId, ack);
      && r.Success?
      && PostKey(clientId, sent) !in r.value
      && PreKey(clientId, sent) !in r.value
  {
    var d := OutgoingUpdate(env, db, clientId, sent).value.0;
    assert PostKey(clientId, ack) == PostKey(clientId, sent);
    assert d[PostKey(clientId, sent)].text == env.packets.encode(sent);
    var acked := ack.(brokerId := sent.brokerId, brokerCounter := sent.brokerCounter);
    assert PreKey(clientId, acked) == PreKey(clientId, sent);
    assert PostKey(clientId, acked) == PostKey(clientId, sent);
    var e := OutgoingUpdate(env, d, clientId, ack).value.0;
    assert e[PostKey(clientId, sent)].text == env.packets.encode(acked);
  }
}
