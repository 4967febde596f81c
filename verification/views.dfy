/**
 * The two views of the subscriptions — each client's hash and each pattern's reverse index.
 * They are meant to be mirrored: a client has a reverse entry on a topic exactly when its
 * hash holds the topic with qos > 0. The corrected addSubscriptions, the corrected
 * removeSubscriptions and cleanSubscriptions keep that. addSubscriptions as written keeps
 * only a weaker form, in step: every reverse entry has its topic in the client's hash, at
 * whatever qos, because a subscription downgraded to qos 0 keeps its reverse entry.
 * removeSubscriptions as written breaks even that.
 */
module Views {
  import opened Wrappers
  import opened Text
  import opened Records
  import opened Keys
  import opened Store
  import opened Subscriptions
  import opened Lookups

  /** Qos text that reads back as a qos above 0. */
  predicate Durable(text: string) {
    ParseInt(text).Some? && ParseInt(text).value > 0
  }

  /** Every reverse entry has its topic in the client's hash. */
  ghost predicate Backed(db: Db) {
    forall t, c :: c in Fields(db, SubClientKey(t)) ==> t in Fields(db, ClientSubKey(c))
  }

  /** Every topic a client's hash holds with qos > 0 has the client's reverse entry. */
  ghost predicate Covered(db: Db) {
    forall t, c :: t in Fields(db, ClientSubKey(c)) && Durable(Fields(db, ClientSubKey(c))[t]) ==> c in Fields(db, SubClientKey(t))
  }

  ghost predicate InStep(db: Db) {
    Backed(db) && Covered(db)
  }

  /** Every reverse entry has its topic in the client's hash, with qos > 0. */
  ghost predicate Precise(db: Db) {
    forall t, c :: c in Fields(db, SubClientKey(t)) ==>
      t in Fields(db, ClientSubKey(c)) && Durable(Fields(db, ClientSubKey(c))[t])
  }

  /** The intended invariant: a reverse entry exists exactly for the topics a hash holds with qos > 0. */
  ghost predicate Mirrored(db: Db) {
    Precise(db) && Covered(db)
  }

  /** A topic the list names has a last subscription on it. */
  lemma LastExists(subs: seq<Subscription>, t: string)
    requires t in Topics(subs)
    ensures exists i :: IsLast(subs, i) && subs[i].topic == t
  {
    var i :| 0 <= i < |subs| && subs[i].topic == t;
    while !IsLast(subs, i)
      invariant 0 <= i < |subs| && subs[i].topic == t
      decreases |subs| - i
    {
      var j :| i < j < |subs| && subs[j].topic == t;
      i := j;
    }
  }

  // ---------------------------------------------------------------- add

  lemma AddKeepsInStep(env: Env, db: Db, clientId: string, subs: seq<Subscription>)
    requires WellTyped(db) && InStep(db) && 0 < |subs|
    ensures InStep(AddSubscriptions(env, db, clientId, subs))
  {
    var r := AddSubscriptions(env, db, clientId, subs);
    WellTypedReverseHashes(db);
    WellTypedKinds(db, ClientSubKey(clientId));
    AddKeepsBacked(env, db, r, clientId, subs);
    AddKeepsCovered(env, db, r, clientId, subs);
  }

  /** The facts about addSubscriptions that the two halves of the invariant need. */
  ghost predicate AddFacts(env: Env, db: Db, r: Db, clientId: string, subs: seq<Subscription>) {
    && Fields(r, ClientSubKey(clientId)) == Fields(db, ClientSubKey(clientId)) + ToStore(subs)
    && (forall c :: c != clientId ==> Agree(db, r, ClientSubKey(c)))
    && OthersKept(db, r, clientId)
    && ReverseWritten(env, db, r, clientId, subs)
  }

  lemma AddKeepsBacked(env: Env, db: Db, r: Db, clientId: string, subs: seq<Subscription>)
    requires Backed(db) && AddFacts(env, db, r, clientId, subs)
    ensures Backed(r)
  {
    forall t, c | c in Fields(r, SubClientKey(t)) ensures t in Fields(r, ClientSubKey(c)) {
      if c == clientId {
        if t in DurableTopics(subs) {
          var i :| 0 <= i < |subs| && subs[i].qos > 0 && subs[i].topic == t;
          assert t in Topics(subs);
        }
      } else {
        assert c in Fields(r, SubClientKey(t)) - {clientId};
        assert Agree(db, r, ClientSubKey(c));
      }
    }
  }

  lemma AddKeepsCovered(env: Env, db: Db, r: Db, clientId: string, subs: seq<Subscription>)
    requires Covered(db) && AddFacts(env, db, r, clientId, subs)
    ensures Covered(r)
  {
    forall t, c | t in Fields(r, ClientSubKey(c)) && Durable(Fields(r, ClientSubKey(c))[t])
      ensures c in Fields(r, SubClientKey(t))
    {
      if c == clientId {
        if t in Topics(subs) {
          LastExists(subs, t);
          var i :| IsLast(subs, i) && subs[i].topic == t;
          ParseIntText(subs[i].qos);
          assert subs[i].qos > 0;
          assert t in DurableTopics(subs);
        }
      } else {
        assert Agree(db, r, ClientSubKey(c));
        assert c in Fields(db, SubClientKey(t)) - {clientId};
      }
    }
  }

  // ---------------------------------------------------------- add, corrected

  /** The corrected add keeps the views mirrored. */
  lemma CorrectedAddKeepsMirrored(env: Env, db: Db, clientId: string, subs: seq<Subscription>)
    requires WellTyped(db) && Mirrored(db) && 0 < |subs|
    ensures Mirrored(AddSubscriptionsCorrected(env, db, clientId, subs))
  {
    var r := AddSubscriptionsCorrected(env, db, clientId, subs);
    CorrectedAddFactsHold(env, db, clientId, subs);
    CorrectedAddPrecise(db, r, clientId, subs);
    CorrectedAddCovered(db, r, clientId, subs);
  }

  /** The facts about the corrected add that the two halves of the invariant need. */
  ghost predicate CorrectedFacts(db: Db, r: Db, clientId: string, subs: seq<Subscription>) {
    && Fields(r, ClientSubKey(clientId)) == Fields(db, ClientSubKey(clientId)) + ToStore(subs)
    && (forall c :: c != clientId ==> Agree(db, r, ClientSubKey(c)))
    && OthersKept(db, r, clientId)
    && (forall t :: clientId in Fields(r, SubClientKey(t)) <==>
         (clientId in Fields(db, SubClientKey(t)) || t in DurableTopics(subs)) && t !in ZeroTopics(subs))
  }

  lemma CorrectedAddFactsHold(env: Env, db: Db, clientId: string, subs: seq<Subscription>)
    requires WellTyped(db) && 0 < |subs|
    ensures CorrectedFacts(db, AddSubscriptionsCorrected(env, db, clientId, subs), clientId, subs)
  {
    var d := AddSubscriptions(env, db, clientId, subs);
    var r := AddSubscriptionsCorrected(env, db, clientId, subs);
    WellTypedReverseHashes(db);
    WellTypedKinds(db, ClientSubKey(clientId));
    assert Agree(d, r, ClientSubKey(clientId));
    forall c | c != clientId ensures Agree(db, r, ClientSubKey(c)) {
      assert Agree(db, d, ClientSubKey(c)) && Agree(d, r, ClientSubKey(c));
    }
  }

  lemma CorrectedAddPrecise(db: Db, r: Db, clientId: string, subs: seq<Subscription>)
    requires Precise(db) && CorrectedFacts(db, r, clientId, subs)
    ensures Precise(r)
  {
    forall t, c | c in Fields(r, SubClientKey(t))
      ensures t in Fields(r, ClientSubKey(c)) && Durable(Fields(r, ClientSubKey(c))[t])
    {
      if c == clientId {
        if t in Topics(subs) {
          LastExists(subs, t);
          var i :| IsLast(subs, i) && subs[i].topic == t;
          ParseIntText(subs[i].qos);
          assert ToStore(subs)[t] == IntText(subs[i].qos);
        } else {
          assert t !in ToStore(subs);
        }
      } else {
        assert c in Fields(r, SubClientKey(t)) - {clientId};
        assert Agree(db, r, ClientSubKey(c));
      }
    }
  }

  lemma CorrectedAddCovered(db: Db, r: Db, clientId: string, subs: seq<Subscription>)
    requires Covered(db) && CorrectedFacts(db, r, clientId, subs)
    ensures Covered(r)
  {
    forall t, c | t in Fields(r, ClientSubKey(c)) && Durable(Fields(r, ClientSubKey(c))[t])
      ensures c in Fields(r, SubClientKey(t))
    {
      if c == clientId {
        if t in Topics(subs) {
          LastExists(subs, t);
          var i :| IsLast(subs, i) && subs[i].topic == t;
          ParseIntText(subs[i].qos);
          assert subs[i].qos > 0;
          assert t in DurableTopics(subs);
        } else {
          assert t !in ToStore(subs);
        }
      } else {
        assert Agree(db, r, ClientSubKey(c));
        assert c in Fields(db, SubClientKey(t)) - {clientId};
      }
    }
  }

  // ------------------------------------------------------------ downgrade

  /**
   * A client subscribes to `t` with qos 1 and then with qos 0, as written: its hash holds `t`
   * with qos 0, yet its reverse entry on `t` stays, so the views are no longer mirrored and
   * subscriptionsByTopic still reports the client on `t`.
   */
  lemma AsWrittenDowngradeKeepsEntry(env: Env, db: Db, clientId: string, t: string)
    requires WellTyped(db)
    ensures var d := AddSubscriptions(env, AddSubscriptions(env, db, clientId, [Subscription(t, 1)]), clientId, [Subscription(t, 0)]);
      && clientId in Fields(d, SubClientKey(t))
      && t in Fields(d, ClientSubKey(clientId)) && Fields(d, ClientSubKey(clientId))[t] == IntText(0)
      && !Mirrored(d)
      && (env.matches(t, t) ==> ReportedOn(env, d, clientId, t))
  {
    var d1 := AddSubscriptions(env, db, clientId, [Subscription(t, 1)]);
    DowngradeFirst(env, db, clientId, t);
    DowngradeSecond(env, d1, clientId, t);
  }

  /** subscriptionsByTopic on `topic` succeeds and reports some subscription of the client. */
  ghost predicate ReportedOn(env: Env, db: Db, clientId: string, topic: string) {
    var r := SubscriptionsByTopic(env, db, topic);
    r.Success? && exists s :: s in r.value && s.clientId == clientId
  }

  /** The first, durable, subscription writes the client's reverse entry. */
  lemma DowngradeFirst(env: Env, db: Db, clientId: string, t: string)
    requires WellTyped(db)
    ensures var d := AddSubscriptions(env, db, clientId, [Subscription(t, 1)]);
      WellTyped(d) && clientId in Fields(d, SubClientKey(t))
  {
    WellTypedReverseHashes(db);
    assert t in DurableTopics([Subscription(t, 1)]) by {
      assert [Subscription(t, 1)][0].topic == t;
    }
  }

  /** The qos 0 subscription overwrites the hash's qos but leaves the reverse entry. */
  lemma DowngradeSecond(env: Env, d1: Db, clientId: string, t: string)
    requires WellTyped(d1) && clientId in Fields(d1, SubClientKey(t))
    ensures var d := AddSubscriptions(env, d1, clientId, [Subscription(t, 0)]);
      && clientId in Fields(d, SubClientKey(t))
      && t in Fields(d, ClientSubKey(clientId)) && Fields(d, ClientSubKey(clientId))[t] == IntText(0)
      && !Mirrored(d)
      && (env.matches(t, t) ==> ReportedOn(env, d, clientId, t))
  {
    var d := AddSubscriptions(env, d1, clientId, [Subscription(t, 0)]);
    WellTypedReverseHashes(d1);
    WellTypedKinds(d1, ClientSubKey(clientId));
    OneStored(Subscription(t, 0));
    ParseIntText(0);
    assert !Durable(Fields(d, ClientSubKey(clientId))[t]);
    if env.matches(t, t) {
      StaleEntryReported(env, d, clientId, t);
    }
  }

  /** A reverse entry on a pattern that matches the topic is reported by subscriptionsByTopic. */
  lemma StaleEntryReported(env: Env, d: Db, clientId: string, t: string)
    requires WellTyped(d) && env.matches(t, t) && clientId in Fields(d, SubClientKey(t))
    ensures ReportedOn(env, d, clientId, t)
  {
    WellTypedKinds(d, SubClientKey(t));
    var r := SubscriptionsByTopic(env, d, t);
    assert r.Success? by {
      forall p | SubClientKey(p) in d ensures !d[SubClientKey(p)].Str? {
        WellTypedKinds(d, SubClientKey(p));
      }
    }
    var s := Decoded(env, Fields(d, SubClientKey(t))[clientId], clientId);
    assert s in r.value && s.clientId == clientId;
  }

  /** The same two subscriptions through the corrected add: the reverse entry goes with the downgrade. */
  lemma CorrectedDowngradeDropsEntry(env: Env, db: Db, clientId: string, t: string)
    requires WellTyped(db)
    ensures var d := AddSubscriptionsCorrected(env, AddSubscriptionsCorrected(env, db, clientId, [Subscription(t, 1)]), clientId, [Subscription(t, 0)]);
      && clientId !in Fields(d, SubClientKey(t))
      && t in Fields(d, ClientSubKey(clientId)) && Fields(d, ClientSubKey(clientId))[t] == IntText(0)
      && (Mirrored(db) ==> Mirrored(d))
  {
    var sub0 := Subscription(t, 0);
    var d1 := AddSubscriptionsCorrected(env, db, clientId, [Subscription(t, 1)]);
    var d := AddSubscriptionsCorrected(env, d1, clientId, [sub0]);
    WellTypedReverseHashes(d1);
    assert IsLast([sub0], 0);
    assert t in ZeroTopics([sub0]);
    CorrectedAddFactsHold(env, d1, clientId, [sub0]);
    WellTypedKinds(d1, ClientSubKey(clientId));
    OneStored(sub0);
    if Mirrored(db) {
      CorrectedAddKeepsMirrored(env, db, clientId, [Subscription(t, 1)]);
      CorrectedAddKeepsMirrored(env, d1, clientId, [sub0]);
    }
  }

  // ------------------------------------------------------------- remove

  /** The corrected removal keeps the views in step. */
  lemma RemoveKeepsInStep(db: Db, clientId: string, subs: seq<Subscription>, skip: Reply -> bool)
    requires InStep(db)
    ensures var r := RemoveSubscriptions(db, clientId, subs, skip, false);
      r.Success? && InStep(r.value)
  {
    var r := RemoveSubscriptions(db, clientId, subs, skip, false).value;
    RemoveSubscriptionsFrame(db, clientId, subs, skip);
    RemoveKeepsBacked(db, r, clientId, subs);
    RemoveKeepsCovered(db, r, clientId, subs);
  }

  /** What the corrected removal leaves, beyond its own contract: other clients' hashes are untouched. */
  lemma RemoveSubscriptionsFrame(db: Db, clientId: string, subs: seq<Subscription>, skip: Reply -> bool)
    ensures var r := RemoveSubscriptions(db, clientId, subs, skip, false);
      r.Success? && forall c :: c != clientId ==> Agree(db, r.value, ClientSubKey(c))
  {
  }

  ghost predicate RemoveFacts(db: Db, r: Db, clientId: string, subs: seq<Subscription>) {
    && ReverseRemoved(db, r, clientId, subs)
    && Fields(r, ClientSubKey(clientId)) == Fields(db, ClientSubKey(clientId)) - Topics(subs)
    && (forall c :: c != clientId ==> Agree(db, r, ClientSubKey(c)))
  }

  lemma RemoveKeepsBacked(db: Db, r: Db, clientId: string, subs: seq<Subscription>)
    requires Backed(db) && RemoveFacts(db, r, clientId, subs)
    ensures Backed(r)
  {
    forall t, c | c in Fields(r, SubClientKey(t)) ensures t in Fields(r, ClientSubKey(c)) {
      if c == clientId {
        assert t !in Topics(subs);
      } else {
        assert c in Fields(r, SubClientKey(t)) - {clientId};
        assert Agree(db, r, ClientSubKey(c));
      }
    }
  }

  lemma RemoveKeepsCovered(db: Db, r: Db, clientId: string, subs: seq<Subscription>)
    requires Covered(db) && RemoveFacts(db, r, clientId, subs)
    ensures Covered(r)
  {
    forall t, c | t in Fields(r, ClientSubKey(c)) && Durable(Fields(r, ClientSubKey(c))[t])
      ensures c in Fields(r, SubClientKey(t))
    {
      if c != clientId {
        assert Agree(db, r, ClientSubKey(c));
        assert c in Fields(db, SubClientKey(t)) - {clientId};
      }
    }
  }

  /** The corrected removal keeps the views mirrored. */
  lemma RemoveKeepsMirrored(db: Db, clientId: string, subs: seq<Subscription>, skip: Reply -> bool)
    requires Mirrored(db)
    ensures var r := RemoveSubscriptions(db, clientId, subs, skip, false);
      r.Success? && Mirrored(r.value)
  {
    var r := RemoveSubscriptions(db, clientId, subs, skip, false).value;
    RemoveSubscriptionsFrame(db, clientId, subs, skip);
    RemoveKeepsPrecise(db, r, clientId, subs);
    RemoveKeepsCovered(db, r, clientId, subs);
  }

  lemma RemoveKeepsPrecise(db: Db, r: Db, clientId: string, subs: seq<Subscription>)
    requires Precise(db) && RemoveFacts(db, r, clientId, subs)
    ensures Precise(r)
  {
    forall t, c | c in Fields(r, SubClientKey(t))
      ensures t in Fields(r, ClientSubKey(c)) && Durable(Fields(r, ClientSubKey(c))[t])
    {
      if c == clientId {
        assert t !in Topics(subs);
      } else {
        assert c in Fields(r, SubClientKey(t)) - {clientId};
        assert Agree(db, r, ClientSubKey(c));
      }
    }
  }

  // -------------------------------------------------------------- clean

  lemma CleanKeepsInStep(db: Db, clientId: string)
    requires InStep(db)
    ensures var r := CleanSubscriptions(db, clientId);
      r.Success? ==> InStep(r.value)
  {
    var r := CleanSubscriptions(db, clientId);
    if r.Success? {
      CleanKeepsBacked(db, r.value, clientId);
      CleanKeepsCovered(db, r.value, clientId);
    }
  }

  ghost predicate CleanFacts(db: Db, r: Db, clientId: string) {
    && ClientSubKey(clientId) !in r
    && (forall t :: t in Fields(db, ClientSubKey(clientId)) ==> clientId !in Fields(r, SubClientKey(t)))
    && (forall t :: t !in Fields(db, ClientSubKey(clientId)) ==> Fields(r, SubClientKey(t)) == Fields(db, SubClientKey(t)))
    && OthersKept(db, r, clientId)
    && (forall c :: c != clientId ==> Agree(db, r, ClientSubKey(c)))
  }

  lemma CleanKeepsBacked(db: Db, r: Db, clientId: string)
    requires Backed(db) && CleanFacts(db, r, clientId)
    ensures Backed(r)
  {
    forall t, c | c in Fields(r, SubClientKey(t)) ensures t in Fields(r, ClientSubKey(c)) {
      assert c != clientId by {
        if t !in Fields(db, ClientSubKey(clientId)) {
          assert Fields(r, SubClientKey(t)) == Fields(db, SubClientKey(t));
        }
      }
      assert c in Fields(r, SubClientKey(t)) - {clientId};
      assert Agree(db, r, ClientSubKey(c));
    }
  }

  lemma CleanKeepsCovered(db: Db, r: Db, clientId: string)
    requires Covered(db) && CleanFacts(db, r, clientId)
    ensures Covered(r)
  {
    forall t, c | t in Fields(r, ClientSubKey(c)) && Durable(Fields(r, ClientSubKey(c))[t])
      ensures c in Fields(r, SubClientKey(t))
    {
      assert Agree(db, r, ClientSubKey(c));
      assert c in Fields(db, SubClientKey(t)) - {clientId};
    }
  }

  /** Clean keeps the views mirrored. */
  lemma CleanKeepsMirrored(db: Db, clientId: string)
    requires Mirrored(db)
    ensures var r := CleanSubscriptions(db, clientId);
      r.Success? ==> Mirrored(r.value)
  {
    var r := CleanSubscriptions(db, clientId);
    if r.Success? {
      CleanKeepsPrecise(db, r.value, clientId);
      CleanKeepsCovered(db, r.value, clientId);
    }
  }

  lemma CleanKeepsPrecise(db: Db, r: Db, clientId: string)
    requires Precise(db) && CleanFacts(db, r, clientId)
    ensures Precise(r)
  {
    forall t, c | c in Fields(r, SubClientKey(t))
      ensures t in Fields(r, ClientSubKey(c)) && Durable(Fields(r, ClientSubKey(c))[t])
    {
      assert c != clientId by {
        if t !in Fields(db, ClientSubKey(clientId)) {
          assert Fields(r, SubClientKey(t)) == Fields(db, SubClientKey(t));
        }
      }
      assert c in Fields(r, SubClientKey(t)) - {clientId};
      assert Agree(db, r, ClientSubKey(c));
    }
  }

  // ------------------------------------------------------ add then remove

  /** Adding subscriptions and removing them again, corrected: the client's hash is back to its earlier topics less the listed ones. */
  lemma AddThenRemove(env: Env, db: Db, clientId: string, subs: seq<Subscription>, skip: Reply -> bool)
    requires HashOrAbsent(db, ClientSubKey(clientId)) && 0 < |subs|
    ensures var r := RemoveSubscriptions(AddSubscriptions(env, db, clientId, subs), clientId, subs, skip, false);
      && r.Success?
      && Fields(r.value, ClientSubKey(clientId)) == Fields(db, ClientSubKey(clientId)) - Topics(subs)
  {
    var d := AddSubscriptions(env, db, clientId, subs);
    var before := Fields(db, ClientSubKey(clientId));
    assert Fields(d, ClientSubKey(clientId)) == before + ToStore(subs);
    MergeThenMinus(before, ToStore(subs), Topics(subs));
  }

  /** Writing fields and then deleting exactly those fields leaves the fields there were, minus them. */
  lemma MergeThenMinus(a: map<string, string>, b: map<string, string>, t: set<string>)
    requires b.Keys == t
    ensures (a + b) - t == a - t
  {
  }

  /** A client subscribed once and unsubscribed again, corrected: subscriptionsByClient reports nothing. */
  lemma FreshAddThenRemoveByClient(env: Env, clientId: string, subs: seq<Subscription>, skip: Reply -> bool)
    requires 0 < |subs|
    ensures var r := RemoveSubscriptions(AddSubscriptions(env, map[], clientId, subs), clientId, subs, skip, false);
      r.Success? && SubscriptionsByClient(r.value, clientId) == Success(None)
  {
    assert WellTyped(map[]);
    EmptyRemoved(env, map[], clientId, subs, skip);
  }

  /**
   * On a well-typed store where the client has no subscriptions, the corrected add then
   * remove leaves the client with none, and subscriptionsByClient reports nothing.
   */
  lemma EmptyRemoved(env: Env, db: Db, clientId: string, subs: seq<Subscription>, skip: Reply -> bool)
    requires 0 < |subs| && WellTyped(db) && Fields(db, ClientSubKey(clientId)) == map[]
    ensures var r := RemoveSubscriptions(AddSubscriptions(env, db, clientId, subs), clientId, subs, skip, false);
      r.Success? && SubscriptionsByClient(r.value, clientId) == Success(None)
  {
    var r := RemoveSubscriptions(AddSubscriptions(env, db, clientId, subs), clientId, subs, skip, false);
    AddRemoveWellTyped(env, db, clientId, subs, skip);
    AddThenRemove(env, db, clientId, subs, skip);
    var none: map<string, string> := map[];
    assert none - Topics(subs) == none;
    EmptiedByClient(r.value, clientId);
  }

  /** The corrected add then remove keeps the store well typed. */
  lemma AddRemoveWellTyped(env: Env, db: Db, clientId: string, subs: seq<Subscription>, skip: Reply -> bool)
    requires 0 < |subs| && WellTyped(db)
    ensures var r := RemoveSubscriptions(AddSubscriptions(env, db, clientId, subs), clientId, subs, skip, false);
      r.Success? && WellTyped(r.value)
  {
    var d := AddSubscriptions(env, db, clientId, subs);
    assert WellTyped(d);
  }

  /** A client whose hash has no field left is reported as having no subscriptions. */
  lemma EmptiedByClient(r: Db, clientId: string)
    requires WellTyped(r) && Fields(r, ClientSubKey(clientId)) == map[]
    ensures SubscriptionsByClient(r, clientId) == Success(None)
  {
    WellTypedKinds(r, ClientSubKey(clientId));
  }

  /**
   * The same exchange as written, with one durable subscription on `t`: the client's hash
   * keeps `t`, so subscriptionsByClient still reports it with qos 1, while the reverse entry
   * is gone and the two views are out of step.
   */
  lemma AsWrittenAddThenRemoveKeepsTopic(env: Env, clientId: string, skip: Reply -> bool)
    ensures var sub := Subscription("t", 1);
      var r := RemoveSubscriptionsAsWritten(AddSubscriptions(env, map[], clientId, [sub]), clientId, [sub], skip, false);
      && r.Success?
      && SubscriptionsByClient(r.value, clientId) == Success(Some(map["t" := Some(1)]))
      && !Covered(r.value)
  {
    var sub := Subscription("t", 1);
    FreshAddOne(env, clientId, sub);
    AsWrittenRemoveOne(AddSubscriptions(env, map[], clientId, [sub]), clientId, sub, skip);
  }

  /** Removing `t` as written from a hash that holds only `t` leaves the hash as it was. */
  lemma AsWrittenRemoveOne(d: Db, clientId: string, sub: Subscription, skip: Reply -> bool)
    requires sub == Subscription("t", 1)
    requires Fields(d, ClientSubKey(clientId)) == map["t" := IntText(1)]
    ensures var r := RemoveSubscriptionsAsWritten(d, clientId, [sub], skip, false);
      && r.Success?
      && SubscriptionsByClient(r.value, clientId) == Success(Some(map["t" := Some(1)]))
      && !Covered(r.value)
  {
    var r := RemoveSubscriptionsAsWritten(d, clientId, [sub], skip, false).value;
    OtherFieldKept("t", IntText(1), "[object Object]");
    assert clientId !in Fields(r, SubClientKey([sub][0].topic));
    OneTopicByClient(r, clientId);
  }

  /** Removing a field a one-entry map does not hold leaves the map as it is. */
  lemma OtherFieldKept(k: string, v: string, other: string)
    requires k != other
    ensures map[k := v] - {other} == map[k := v]
  {
  }

  /** Adding one subscription to an empty store leaves the client's hash holding just that topic. */
  lemma FreshAddOne(env: Env, clientId: string, sub: Subscription)
    ensures Fields(AddSubscriptions(env, map[], clientId, [sub]), ClientSubKey(clientId)) == map[sub.topic := IntText(sub.qos)]
  {
    OneStored(sub);
  }

  /** One subscription stores its topic with its qos text. */
  lemma OneStored(sub: Subscription)
    ensures ToStore([sub]) == map[sub.topic := IntText(sub.qos)]
  {
    assert Topics([sub]) == {sub.topic} by {
      assert [sub][0].topic == sub.topic;
    }
    assert IsLast([sub], 0);
  }

  /** A client hash holding `t` with qos text `1` is reported as such and is not covered unless the reverse entry exists. */
  lemma OneTopicByClient(db: Db, clientId: string)
    requires Fields(db, ClientSubKey(clientId)) == map["t" := IntText(1)]
    requires clientId !in Fields(db, SubClientKey("t"))
    ensures SubscriptionsByClient(db, clientId) == Success(Some(map["t" := Some(1)]))
    ensures !Covered(db)
  {
    var m := Fields(db, ClientSubKey(clientId));
    ParseIntText(1);
    assert (map t | t in m :: ParseInt(m[t])) == map["t" := Some(1)];
    assert "t" in m && Durable(m["t"]);
  }

  /**
   * addSubscriptions then removeSubscriptions of one subscription with qos > 0 leaves the
   * subscriptions counter where it was, when the removal's reply is not counted as skipped.
   */
  lemma AddThenRemoveCounter(env: Env, db: Db, clientId: string, sub: Subscription, skip: Reply -> bool)
    requires WellTyped(db) && sub.qos > 0 && !skip(IntReply(1))
    ensures var r := RemoveSubscriptions(AddSubscriptions(env, db, clientId, [sub]), clientId, [sub], skip, false);
      r.Success? && CounterOf(r.value, OfflineSubscriptionsKey) == CounterOf(db, OfflineSubscriptionsKey)
  {
    AddOneCounter(env, db, clientId, sub);
    RemoveOneCounter(AddSubscriptions(env, db, clientId, [sub]), clientId, sub, skip);
  }

  /** Adding one durable subscription raises the subscriptions counter by one and writes the reverse entry. */
  lemma AddOneCounter(env: Env, db: Db, clientId: string, sub: Subscription)
    requires WellTyped(db) && sub.qos > 0
    ensures var d := AddSubscriptions(env, db, clientId, [sub]);
      && IsCounter(d, OfflineSubscriptionsKey)
      && CounterOf(d, OfflineSubscriptionsKey) == CounterOf(db, OfflineSubscriptionsKey) + 1
      && HashOrAbsent(d, SubClientKey(sub.topic))
      && clientId in Fields(d, SubClientKey(sub.topic))
  {
    var d := AddSubscriptions(env, db, clientId, [sub]);
    CounterNamespaces();
    WellTypedKinds(db, OfflineSubscriptionsKey);
    WellTypedKinds(d, OfflineSubscriptionsKey);
    WellTypedReverseHashes(db);
    WellTypedReverseHashes(d);
    assert [sub][..0] == [];
    assert DurableCount([sub]) == 1;
    assert sub.topic in DurableTopics([sub]) by {
      assert [sub][0] == sub;
    }
  }

  /** Removing one subscription whose reverse entry exists, not counted as skipped, lowers the counter by one. */
  lemma RemoveOneCounter(d: Db, clientId: string, sub: Subscription, skip: Reply -> bool)
    requires IsCounter(d, OfflineSubscriptionsKey) && !skip(IntReply(1))
    requires HashOrAbsent(d, SubClientKey(sub.topic)) && clientId in Fields(d, SubClientKey(sub.topic))
    ensures var r := RemoveSubscriptions(d, clientId, [sub], skip, false);
      r.Success? && CounterOf(r.value, OfflineSubscriptionsKey) == CounterOf(d, OfflineSubscriptionsKey) - 1
  {
    var each := RemoveEach(d, clientId, [sub], TopicField);
    assert [sub][..0] == [];
    assert each.1 == [IntReply(1)];
    assert CountWhere(each.1, skip) == 0;
  }

  // ------------------------------------------------------------ skipped

  /**
   * Line 148 as written: each transaction result ioredis hands back is an `[err, reply]`
   * pair, which is never `=== '0'`, so no reply counts as skipped.
   */
  predicate SkipAsWritten(reply: Reply) {
    false
  }

  /** Line 148 as meant: a reverse-index HDEL that removed nothing. */
  predicate SkipCorrected(reply: Reply) {
    reply == IntReply(0)
  }

  /** As written nothing is skipped. */
  lemma {:induction false} NothingSkipped(replies: seq<Reply>)
    ensures CountWhere(replies, SkipAsWritten) == 0
    decreases |replies|
  {
    if 0 < |replies| {
      NothingSkipped(replies[..|replies| - 1]);
    }
  }

  /** As written, removing any list of subscriptions lowers the subscriptions counter by its length. */
  lemma AsWrittenRemoveCounter(db: Db, clientId: string, subs: seq<Subscription>)
    requires IsCounter(db, OfflineSubscriptionsKey)
    ensures var r := RemoveSubscriptionsAsWritten(db, clientId, subs, SkipAsWritten, false);
      r.Success? && CounterOf(r.value, OfflineSubscriptionsKey) == CounterOf(db, OfflineSubscriptionsKey) - |subs|
  {
    NothingSkipped(RemoveEach(db, clientId, subs, ObjectField).1);
  }

  /** Adding one subscription with qos 0 leaves the subscriptions counter and the reverse entries as they were. */
  lemma AddZeroCounter(env: Env, db: Db, clientId: string, sub: Subscription)
    requires WellTyped(db) && sub.qos <= 0
    ensures var d := AddSubscriptions(env, db, clientId, [sub]);
      && IsCounter(d, OfflineSubscriptionsKey)
      && CounterOf(d, OfflineSubscriptionsKey) == CounterOf(db, OfflineSubscriptionsKey)
      && HashOrAbsent(d, SubClientKey(sub.topic))
      && (clientId in Fields(d, SubClientKey(sub.topic)) <==> clientId in Fields(db, SubClientKey(sub.topic)))
  {
    var d := AddSubscriptions(env, db, clientId, [sub]);
    CounterNamespaces();
    WellTypedKinds(db, OfflineSubscriptionsKey);
    WellTypedKinds(d, OfflineSubscriptionsKey);
    WellTypedReverseHashes(db);
    WellTypedReverseHashes(d);
    assert [sub][..0] == [];
    assert DurableCount([sub]) == 0;
    assert sub.topic !in DurableTopics([sub]);
  }

  /**
   * As written, subscribing to `t` with qos 0 and unsubscribing again lowers the subscriptions
   * counter by one, although the subscription was never counted.
   */
  lemma AsWrittenZeroQosCounter(env: Env, db: Db, clientId: string, t: string)
    requires WellTyped(db)
    ensures var r := RemoveSubscriptionsAsWritten(AddSubscriptions(env, db, clientId, [Subscription(t, 0)]), clientId, [Subscription(t, 0)], SkipAsWritten, false);
      r.Success? && CounterOf(r.value, OfflineSubscriptionsKey) == CounterOf(db, OfflineSubscriptionsKey) - 1
  {
    AddZeroCounter(env, db, clientId, Subscription(t, 0));
    AsWrittenRemoveCounter(AddSubscriptions(env, db, clientId, [Subscription(t, 0)]), clientId, [Subscription(t, 0)]);
  }

  /**
   * With line 148 as meant, the same exchange leaves the counter as it was, when the client
   * had no reverse entry on `t`.
   */
  lemma CorrectedZeroQosCounter(env: Env, db: Db, clientId: string, t: string)
    requires WellTyped(db) && clientId !in Fields(db, SubClientKey(t))
    ensures var r := RemoveSubscriptions(AddSubscriptions(env, db, clientId, [Subscription(t, 0)]), clientId, [Subscription(t, 0)], SkipCorrected, false);
      r.Success? && CounterOf(r.value, OfflineSubscriptionsKey) == CounterOf(db, OfflineSubscriptionsKey)
  {
    var sub := Subscription(t, 0);
    AddZeroCounter(env, db, clientId, sub);
    var d := AddSubscriptions(env, db, clientId, [sub]);
    var each := RemoveEach(d, clientId, [sub], TopicField);
    assert [sub][..0] == [];
    assert each.1 == [IntReply(0)];
    assert CountWhere(each.1, SkipCorrected) == 1;
  }
}
