/**
 * Incoming QoS 2 packets awaiting release: one `incoming:<client>:<messageId>` string each,
 * stored, read back and deleted by message id.
 */
module Incoming {
  import opened Wrappers
  import opened Text
  import opened Records
  import opened Keys
  import opened Store

  /** The key of a client's incoming packet: its message id. */
  function InKey(clientId: string, packet: Packet): string {
    IncomingKey(clientId, IntText(packet.messageId))
  }

  /** Two incoming keys of one client are the same exactly when the message ids are. */
  lemma InKeyInjective(clientId: string, p: Packet, q: Packet)
    ensures InKey(clientId, p) == InKey(clientId, q) <==> p.messageId == q.messageId
  {
    var head := IncomingPrefix + clientId + ":";
    var a := IntText(p.messageId);
    var b := IntText(q.messageId);
    assert InKey(clientId, p) == head + a;
    assert InKey(clientId, q) == head + b;
    if head + a == head + b {
      assert a == (head + a)[|head|..];
      assert b == (head + b)[|head|..];
      IntTextInjective(p.messageId, q.messageId);
    }
  }

  /**
   * What incomingStorePacket writes: the packet rebuilt by the packet constructor, with the
   * message id set back to the one it arrived with.
   */
  function Rebuilt(env: Env, packet: Packet): (p: Packet)
    ensures p.messageId == packet.messageId
  {
    env.repack(packet).(messageId := packet.messageId)
  }

  /** incomingStorePacket: the rebuilt packet, encoded, under its key. No other key changes. */
  function IncomingStorePacket(env: Env, db: Db, clientId: string, packet: Packet): (r: Db)
    ensures Get(r, InKey(clientId, packet)) == Success(Some(env.packets.encode(Rebuilt(env, packet))))
    ensures forall k :: k != InKey(clientId, packet) ==> Agree(db, r, k)
    ensures WellTyped(db) ==> WellTyped(r)
  {
    Set(db, InKey(clientId, packet), env.packets.encode(Rebuilt(env, packet))).1
  }

  /** incomingGetPacket: the stored packet, decoded; `no such packet` when there is none. */
  function IncomingGetPacket(env: Env, db: Db, clientId: string, packet: Packet): (r: Result<Packet, Error>)
    ensures r.Success? <==> InKey(clientId, packet) in db && db[InKey(clientId, packet)].Str?
    ensures InKey(clientId, packet) !in db <==> r == Failure(NoSuchPacket("no such packet"))
    ensures r.Success? ==> r.value == env.packets.decode(db[InKey(clientId, packet)].text)
  {
    var found :- Get(db, InKey(clientId, packet));
    if found.None? then Failure(NoSuchPacket("no such packet")) else Success(env.packets.decode(found.value))
  }

  /** incomingDelPacket. */
  function IncomingDelPacket(db: Db, clientId: string, packet: Packet): (r: Db)
    ensures InKey(clientId, packet) !in r
    ensures forall k :: k != InKey(clientId, packet) ==> Agree(db, r, k)
    ensures WellTyped(db) ==> WellTyped(r)
  {
    Del(db, InKey(clientId, packet))
  }

  /**
   * A stored packet reads back, under any packet with the same message id, as the rebuilt
   * packet; a packet of another message id reads as it did before.
   */
  lemma StoreThenGet(env: Env, db: Db, clientId: string, packet: Packet, query: Packet)
    requires Lawful(env.packets)
    ensures var d := IncomingStorePacket(env, db, clientId, packet);
      IncomingGetPacket(env, d, clientId, query) ==
        if query.messageId == packet.messageId then Success(Rebuilt(env, packet))
        else IncomingGetPacket(env, db, clientId, query)
  {
    var d := IncomingStorePacket(env, db, clientId, packet);
    InKeyInjective(clientId, packet, query);
    if query.messageId == packet.messageId {
      assert d[InKey(clientId, packet)].text == env.packets.encode(Rebuilt(env, packet));
    } else {
      assert Agree(db, d, InKey(clientId, query));
    }
  }

  /** After incomingDelPacket the packet is gone; packets of other message ids stay. */
  lemma DelThenGet(env: Env, db: Db, clientId: string, packet: Packet, query: Packet)
    ensures var d := IncomingDelPacket(db, clientId, packet);
      IncomingGetPacket(env, d, clientId, query) ==
        if query.messageId == packet.messageId then Failure(NoSuchPacket("no such packet"))
        else IncomingGetPacket(env, db, clientId, query)
  {
    var d := IncomingDelPacket(db, clientId, packet);
    InKeyInjective(clientId, packet, query);
    if query.messageId != packet.messageId {
      assert Agree(db, d, InKey(clientId, query));
    }
  }
}
