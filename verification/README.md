# aedes-persistence-redis, modelled in Dafny

`persistence.js` is the Redis storage layer of the aedes MQTT broker. It keeps:

- retained messages, one `retained:<topic>` string per topic;
- subscriptions in two views:
  - `client:sub:<clientId>`, a hash from topic to qos;
  - `sub:client:<topic>`, a hash from client id to the encoded subscription, written only for qos > 0;
- two offline counters, `counter:offline:clients` and `counter:offline:subscriptions`;
- the outgoing queue:
  - a pre-key `outgoing:<client>:<brokerId>:<brokerCounter>`;
  - a post-key `outgoing-id:<client>:<messageId>`;
- incoming QoS 2 packets, `incoming:<client>:<messageId>`;
- last wills, `will:<brokerId>:<clientId>`.

The model treats the Redis keyspace as an immutable map (`Store.Db`) from key text to a value. A value is a string (`Str`) or a hash (`Hash`). A counter is a string holding canonical decimal text, as Redis keeps it. Each broker operation is a pure function from a store to an outcome and a new store. The commands an operation sends, in one pipeline or one MULTI, take effect in the order it sends them. A command that meets a key of the wrong kind follows Redis:

- a read gives `Failure(WrongType)`;
- a write inside a MULTI changes nothing.

The collaborators the layer calls are fields of `Records.Env`:

- the msgpack codec;
- the Qlobber topic matcher, `matches(pattern, topic)`;
- the aedes-packet constructor, `repack`;
- the broker id.

Where a property needs the codec to decode what it encoded, the lemma takes `Lawful(codec)` as a hypothesis. `SCAN ... MATCH` is modelled with Redis glob semantics (`Glob.Match`: `*`, `?`, `[...]`, backslash), because the source builds the glob text itself. `Store.WellTyped` says that every key family the layer owns holds the kind of value it expects.

Modules, following the source's sections:

- `Wrappers`, `Text`, `Glob`: the JavaScript string helpers and Redis glob matching.
- `Records`, `Keys`, `Store`: packets and subscriptions, key construction, the Redis commands.
- `Retained`: `storeRetained`, `createRetainedStream`.
- `Subscriptions`: `addSubscriptions`, `removeSubscriptions`, `cleanSubscriptions`.
- `Lookups`: `subscriptionsByClient`, `subscriptionsByTopic`, `countOffline`.
- `Views`: the invariant that keeps the two subscription views mirrored, and the weaker in-step form the code keeps.
- `Outgoing`, `Incoming`, `Wills`: the packet tracker and the will store.

Where the code and the documented behaviour disagree, the model states the code as written and, where Findings lists the disagreement, the corrected behaviour beside it:

- `removeSubscriptions` is meant to drop each topic from both views. It leaves the topic in the client's hash (persistence.js:139).
- `countOffline` is meant to always answer with both counts. It never answers while the subscriptions counter is missing (persistence.js:183-194).
- A reverse entry is meant to exist exactly for the topics the client holds with qos > 0. A subscription downgraded to qos 0 keeps its reverse entry (persistence.js:109-116).
- The `no such packet` branch of `updateWithBrokerData` can never be taken, because SET always replies `OK`.
- `updateWithBrokerData` is meant to drop the post-key of a message id the packet no longer has. It also drops the post-key it has just written when the id is unchanged, so a later clear fails (persistence.js:263-270). `Outgoing.OutgoingUpdateAsWritten` models the code; the other outgoing lemmas use the corrected update (see Findings).
- `cleanSubscriptions` leaves both counters untouched.

## Model

| member | source | states |
|---|---|---|
| Text.ParseInt | persistence.js:169 | `parseInt` of empty text is `NaN` (`None`); text that starts with a digit reads as a number >= 0 |
| Text.ParseIntLeadingNumber | persistence.js:169 | `parseInt` reads the number at the head of the text and stops at the first non-digit: `parseInt(String(i) + rest)` is `i` |
| Text.ParseIntText | persistence.js:169 | `parseInt` of the decimal text a number is stored as gives back that number |
| Text.BeforeWildcard | persistence.js:86 | `pattern.split(/[#+]/)[0]` is a prefix of the pattern with no `#` or `+` in it, followed by a wildcard or by the end of the pattern |
| Glob.EscapedScan | persistence.js:85-87 | an escaped literal followed by `*` selects exactly the keys that start with the literal |
| Glob.PlainScan | persistence.js:201-203 | a literal with no glob character, followed by `*`, selects exactly the keys that start with it |
| Keys.RetainedKey | persistence.js:52 | `retained:` + topic lies in the retained family and gives the topic back after the prefix |
| Keys.ClientSubKey | persistence.js:100 | `client:sub:` + id lies in the client-hash family and gives the id back |
| Keys.SubClientKey | persistence.js:111 | `sub:client:` + topic lies in the reverse-index family and gives the topic back |
| Keys.OutgoingKey | persistence.js:255 | a pre-key lies in the outgoing family and starts with `outgoing:<client>:` |
| Keys.WillKeyBrokerOf | persistence.js:413 | `key.split(':')[1]` of a will key is its broker id, when that id has no `:` |
| Keys.CounterNamespaces | persistence.js:15-16 | the two counter keys lie outside every prefixed key family |
| Store.Get | persistence.js:180-188 | GET fails with a wrong-type error iff the key holds a hash, answers nil iff the key is absent, and otherwise the string |
| Store.HGetAll | persistence.js:165 | HGETALL fails iff the key holds a string; otherwise the hash's fields, none for an absent key |
| Store.Set | persistence.js:56 | SET answers `OK`, a later GET reads the text back, and no other key changes |
| Store.Del | persistence.js:54 | DEL removes the key, a later GET answers nil, and no other key changes |
| Store.Scan | persistence.js:85-87 | a scan returns only keys present in the store |
| Store.FetchRecords | persistence.js:27-35 | `_decodeAndAugment` succeeds iff every key holds a string, and yields each key's text decoded |
| Store.HMSet | persistence.js:105 | HMSET merges the fields into a hash or an absent key and leaves a string untouched; no other key changes |
| Store.HSet | persistence.js:113 | HSET sets one field of a hash or an absent key and leaves a string untouched; no other key changes |
| Store.HDel | persistence.js:138-139 | HDEL removes the field and replies 1 if it was there, 0 if not, or an error on a string; a hash left empty disappears |
| Store.DropField | persistence.js:243-246 | deleting one field on a set of keys removes it from each of those hashes and changes no other key |
| Store.DropFieldSplit | persistence.js:243-246 | deleting the field key by key gives the same store as deleting it on all the keys at once |
| Store.IncrBy | persistence.js:122-124 | INCRBY adds the amount to a counter (an absent key counts as 0) and changes no other key |
| Retained.StoreRetained | persistence.js:51-58 | an empty payload deletes `retained:<topic>`; any other payload stores the encoded packet there; no other key changes |
| Retained.StoreRetainedWellTyped | persistence.js:51-58 | storing or clearing a retained message keeps the store well typed |
| Retained.MatchingRetained | persistence.js:73-82 | `splitArray` keeps exactly the candidate keys whose topic, the text after `retained:`, the pattern matches |
| Retained.CreateRetainedStreamAsWritten | persistence.js:60-90 | as written, every emitted key is a `retained:` key whose topic the pattern matches, with its stored packet decoded; it finds every matching topic under the scan prefix when that prefix is glob-free |
| Retained.AsWrittenScanBounds | persistence.js:86 | the as-written glob selects only `retained:` keys, and every key under the prefix when the prefix is glob-free |
| Retained.ScanPrefix | persistence.js:86 | the corrected prefix is the text before the first wildcard, or that text less a final `/` when a `#` follows it |
| Retained.CreateRetainedStream | persistence.js:60-90 | corrected: emits exactly the matching `retained:` keys whose topic starts with the scan prefix, decoded; never fails on a well-typed store |
| Retained.CorrectedScanBounds | persistence.js:86 | the escaped glob selects exactly the `retained:` keys whose topic starts with the scan prefix |
| Retained.CorrectedScanCovers | persistence.js:86 | every topic that starts with the as-written prefix also starts with the corrected one, so the corrected scan reaches it |
| Retained.AsWrittenScanWithinPrefix | persistence.js:86 | when the text before the first wildcard holds no glob character, the as-written glob selects only keys under `retained:` and that text |
| Retained.ScanPrefixOfMultiLevel | persistence.js:86 | the pattern `lit/#` scans from `lit`, so its parent topic is reached |
| Retained.ClearedRetainedNotStreamed | persistence.js:53-54 | after an empty payload is stored, neither stream yields that topic |
| Retained.StoredRetainedStreamed | persistence.js:51-90 | a stored retained packet comes back, as stored, from a pattern's corrected stream iff the pattern matches its topic and the topic starts with the pattern's scan prefix |
| Retained.RetainThenClearScenario | persistence.js:51-90 | storing a payload on `x/y` and then an empty payload leaves nothing for `x/#` to stream |
| Retained.BracketGlobMisses | persistence.js:86 | the glob `retained:a[b]*` does not select the key `retained:a[b]` |
| Retained.AsWrittenMissesBracketTopic | persistence.js:86 | as written, the retained message of topic `a[b]` is never streamed for the pattern `a[b]`; the corrected stream yields it |
| Retained.AsWrittenMissesParentTopic | persistence.js:86 | as written, `a/#` never streams the retained message of `a`; the corrected stream yields it |
| Subscriptions.ToStore | persistence.js:92-103 | the reduced object holds every listed topic, with the qos text of the last subscription on that topic |
| Subscriptions.DurableCount | persistence.js:107-116 | `count` is the number of listed subscriptions with qos > 0, duplicates included |
| Subscriptions.WriteReverse | persistence.js:109-116 | the client gets a reverse entry exactly for each topic it had before or subscribes with qos > 0, holding the last such subscription encoded; other clients' entries and other keys are unchanged |
| Subscriptions.AddSubscriptions | persistence.js:97-127 | the client hash gains the listed topics; the reverse index follows `WriteReverse`; the clients counter rises by 1 iff the client hash did not exist; the subscriptions counter rises by `count`; other clients and other keys are unchanged; well-typedness is kept |
| Subscriptions.ZeroTopics | persistence.js:92-95 | the topics whose last listed subscription has qos 0 or less, which the hash ends up holding at that qos |
| Subscriptions.AddSubscriptionsCorrected | persistence.js:97-127 | corrected: as addSubscriptions, except that the client's reverse entry goes from every topic whose last listed qos is 0; it then exists iff it existed or the topic is subscribed durably, and the topic's last qos is > 0 |
| Subscriptions.RemoveEach | persistence.js:136-140 | per subscription, the client's reverse entry and the named field of the client hash are removed; one reply per subscription |
| Subscriptions.CountWhere | persistence.js:145-151 | `skipped` is at most the number of replies inspected |
| Subscriptions.RemoveSubscriptionsWith | persistence.js:129-157 | fails iff the transaction aborts; on success the reverse entries are gone, the counter drops by `subs.length - skipped` (between 0 and `subs.length`), and other clients, the clients counter and other keys are unchanged |
| Subscriptions.RemoveSubscriptionsAsWritten | persistence.js:139 | as written, the client hash loses only a field named `[object Object]` |
| Subscriptions.RemoveSubscriptions | persistence.js:129-157 | corrected: both views lose exactly the listed topics for the client |
| Subscriptions.ReverseKeys | persistence.js:243-244 | the reverse keys rebuilt from the hash's topics are exactly `sub:client:` + each topic |
| Subscriptions.CleanSubscriptions | persistence.js:232-252 | fails iff the client key holds a string; otherwise deletes the client hash and the client's reverse entry for each of its topics; other topics, other clients and both counters are unchanged |
| Lookups.SubscriptionsByClient | persistence.js:159-174 | null iff the client has no hash fields; otherwise each topic with `parseInt` of its qos |
| Lookups.AddThenByClient | persistence.js:159-174 | after adding, subscriptionsByClient lists the earlier topics plus the listed ones, each listed topic with its last qos |
| Lookups.ReverseGlobSelects | persistence.js:200-202 | `sub:client:*` selects exactly the reverse-index keys |
| Lookups.MatchingPatterns | persistence.js:205-215 | the filter keeps exactly the reverse keys whose pattern matches the topic |
| Lookups.SubscriptionsByTopic | persistence.js:198-230 | fails iff a matching reverse key holds a string; otherwise reports exactly the decoded entries of matching patterns, each stamped with its client id |
| Lookups.AddThenByTopic | persistence.js:198-230 | after adding a durable subscription, every topic its pattern matches reports it for the client |
| Lookups.ByTopicFinds | persistence.js:216-228 | when every reverse key holds a hash, every matching entry is reported |
| Lookups.CountOfflineAsWritten | persistence.js:176-196 | as written, on a well-typed store the callback gets the counts iff the subscriptions counter exists and is >= 0, and then gets that counter and the clients counter (`NaN`, the model's `None`, when absent) |
| Lookups.CountOffline | persistence.js:176-196 | corrected: once both reads succeed, the callback always gets the counts |
| Lookups.CountOfflineReadsCounters | persistence.js:176-196 | on a well-typed store the corrected countOffline reports the two counters, a missing one as 0 |
| Lookups.CountOfflineAsWrittenSilence | persistence.js:183-194 | as written, there is no callback when the subscriptions counter is absent or negative, and the counters otherwise |
| Views.AddKeepsInStep | persistence.js:97-127 | addSubscriptions keeps the two views in step: each reverse entry is backed by the client hash, and each durable hash topic has its reverse entry |
| Views.CorrectedAddKeepsMirrored | persistence.js:97-127 | the corrected add keeps the views mirrored: a reverse entry exists iff the client hash holds its topic with qos > 0 |
| Views.RemoveKeepsMirrored | persistence.js:129-157 | the corrected removal succeeds and keeps the views mirrored |
| Views.CleanKeepsMirrored | persistence.js:232-252 | cleanSubscriptions keeps the views mirrored |
| Views.AsWrittenDowngradeKeepsEntry | persistence.js:109-116 | as written, subscribing to `t` with qos 1 then qos 0 leaves the hash at qos 0 but keeps the reverse entry, so the views are not mirrored and subscriptionsByTopic still reports the client |
| Views.CorrectedDowngradeDropsEntry | persistence.js:109-116 | through the corrected add, the same two subscriptions leave the hash at qos 0 and no reverse entry, and a mirrored store stays mirrored |
| Views.RemoveKeepsInStep | persistence.js:129-157 | the corrected removal succeeds and keeps the two views in step |
| Views.CleanKeepsInStep | persistence.js:232-252 | cleanSubscriptions keeps the two views in step |
| Views.AddThenRemove | persistence.js:129-157 | corrected add then remove leaves the client hash as it was, less the listed topics |
| Views.FreshAddThenRemoveByClient | persistence.js:159-174 | corrected add then remove on an empty store leaves subscriptionsByClient answering null |
| Views.EmptyRemoved | persistence.js:159-174 | on any well-typed store where the client has no subscriptions, corrected add then remove leaves subscriptionsByClient answering null |
| Views.AsWrittenAddThenRemoveKeepsTopic | persistence.js:139 | as written, add then remove of `{t, 1}` leaves `t` reported with qos 1 and the views out of step |
| Views.AddThenRemoveCounter | persistence.js:124-153 | adding and then removing one durable subscription brings the subscriptions counter back to its earlier value, when a reply of 1 is not counted as skipped |
| Views.NothingSkipped | persistence.js:147-151 | as written, no reply counts as skipped: `skipped` is 0 |
| Views.AsWrittenRemoveCounter | persistence.js:145-153 | as written, removing any list lowers the subscriptions counter by its length |
| Views.AsWrittenZeroQosCounter | persistence.js:145-153 | as written, adding and then removing one qos 0 subscription lowers the subscriptions counter by one |
| Views.CorrectedZeroQosCounter | persistence.js:145-153 | with a reply of 0 counted as skipped, the same exchange leaves the counter as it was |
| Outgoing.PreKey | persistence.js:255 | the pre-key lies in the outgoing family and starts with `outgoing:<client>:` |
| Outgoing.PostKey | persistence.js:261 | the post-key lies in the `outgoing-id:` family |
| Outgoing.PostKeyInjective | persistence.js:314 | a client's post-keys coincide iff the message ids do |
| Outgoing.PostKeyOfInjective | persistence.js:261-267 | the post-key built from a message id, as lines 261 and 267 build it, determines the id |
| Outgoing.OutgoingEnqueue | persistence.js:254-257 | the pre-key holds the reconstructed packet, encoded; no other key changes |
| Outgoing.UpdateBoth | persistence.js:272-284 | the MULTI always succeeds; both keys hold the encoded packet; no other key changes |
| Outgoing.UpdateWithBrokerDataAsWritten | persistence.js:259-285 | as written, the pre-key holds the encoded packet; the post-key of the message id found under the pre-key beforehand is deleted after the MULTI, so the new post-key holds the packet iff that id differs from the new one; no other key changes |
| Outgoing.UpdateWithBrokerData | persistence.js:259-285 | corrected: always succeeds; both keys hold the encoded packet; the post-key of a different message id found under the pre-key beforehand is deleted; no other key changes |
| Outgoing.AugmentWithBrokerData | persistence.js:287-297 | fails with `no suck packet` when the post-key is absent; otherwise takes the stored broker id and counter and keeps every other field |
| Outgoing.OutgoingUpdate | persistence.js:299-310 | a packet with a truthy broker id is written as is; otherwise the update succeeds iff augmenting does; both keys of the packet written hold it, the superseded post-key is gone, and no other key changes |
| Outgoing.OutgoingUpdateAsWritten | persistence.js:259-310 | as written, the same branches; the pre-key holds the packet written, and its post-key survives iff the late DEL does not name it; no other key changes but that DEL's |
| Outgoing.OutgoingClearMessageId | persistence.js:312-328 | fails with `no suck packet` when the post-key is absent; otherwise removes the post-key and the pre-key rebuilt from the stored packet, and nothing else |
| Outgoing.OutgoingGlobSelects | persistence.js:338 | the outgoing glob selects only pre-keys |
| Outgoing.OutgoingGlobPlain | persistence.js:338 | for a glob-free client id the glob selects exactly the keys behind `outgoing:<client>:` |
| Outgoing.OutgoingStream | persistence.js:330-343 | streams the decoded packets of the selected keys; for a glob-free id, exactly the keys behind `outgoing:<client>:`; never fails on a well-typed store |
| Outgoing.EnqueueThenStream | persistence.js:254-343 | for a subscriber id without glob characters, a queued packet appears in its subscriber's stream |
| Outgoing.OutgoingStreamCorrected | persistence.js:330-343 | corrected, with the id escaped in the glob: exactly the keys behind `outgoing:<client>:`, decoded, for any id; never fails on a well-typed store |
| Outgoing.EnqueueThenStreamCorrected | persistence.js:254-343 | with the corrected stream, a queued packet appears in its subscriber's stream whatever the id |
| Outgoing.AsWrittenMissesBracketClient | persistence.js:338 | as written, a packet queued for subscriber `a[b]` is missing from that subscriber's stream; the corrected stream has it |
| Outgoing.BracketClientGlobMisses | persistence.js:338 | the glob `outgoing:a[b]:*` selects no key behind `outgoing:a[b]:` |
| Outgoing.UpdateThenClear | persistence.js:259-328 | an update followed by a clear leaves neither key nor the superseded post-key, and every other key as it was |
| Outgoing.EnqueueUpdateClear | persistence.js:254-328 | enqueue, then update with the same broker data, then clear, leaves neither key nor the post-key of a different message id the queued packet carried, and every other key as it was |
| Outgoing.ClearTwice | persistence.js:312-328 | a second clear of the same message id fails with `no suck packet` |
| Outgoing.UpdateRecoversBrokerData | persistence.js:287-310 | after an update, an update carrying only the message id recovers the broker data and writes the same pre-key |
| Outgoing.AsWrittenAckLosesPostKey | persistence.js:263-270 | as written, a send with message id `m > 0` followed by an update carrying only `m` deletes the post-key of `m`; the clear then answers `no suck packet` and the pre-key stays |
| Outgoing.CorrectedAckThenClear | persistence.js:259-328 | corrected, the same send and update keep the post-key, and the clear removes both keys |
| Incoming.InKeyInjective | persistence.js:346 | a client's incoming keys coincide iff the message ids do |
| Incoming.Rebuilt | persistence.js:347-348 | the stored packet keeps the message id it arrived with |
| Incoming.IncomingStorePacket | persistence.js:345-350 | the incoming key holds the rebuilt packet, encoded; no other key changes |
| Incoming.IncomingGetPacket | persistence.js:352-359 | `no such packet` iff the key is absent; otherwise the stored packet, decoded |
| Incoming.IncomingDelPacket | persistence.js:361-364 | the key is gone; no other key changes |
| Incoming.StoreThenGet | persistence.js:345-359 | a stored packet reads back rebuilt; packets of other message ids read as before |
| Incoming.DelThenGet | persistence.js:352-364 | a deleted packet reads as `no such packet`; packets of other message ids read as before |
| Wills.WillOfInjective | persistence.js:367 | one broker's will keys for two clients coincide iff the clients do |
| Wills.Stamped | persistence.js:368-369 | the will carries the client's id and this broker's id, and every other field is unchanged |
| Wills.PutWill | persistence.js:366-373 | the will key holds the stamped will, encoded; no other key changes |
| Wills.GetWill | persistence.js:375-388 | null iff the key is absent; fails iff it holds a hash; otherwise the decoded will |
| Wills.DelWill | persistence.js:390-406 | reports what getWill would have reported, removes the key and changes no other key |
| Wills.WillGlobSelects | persistence.js:410 | `will:*` selects exactly the will keys |
| Wills.OrphanedWillKey | persistence.js:415 | a will key passes the filter iff no broker set is given or its broker's id up to the first `:` is not live; for an id without `:`, the id itself |
| Wills.StreamWill | persistence.js:408-422 | streams exactly the will keys whose broker field is not live (all of them without a broker set), decoded; never fails on a well-typed store |
| Wills.PutThenGet | persistence.js:366-388 | a stored will reads back stamped; other clients' wills read as before |
| Wills.DelThenGet | persistence.js:390-406 | after delWill, getWill and a second delWill both report null |
| Wills.PutThenStream | persistence.js:408-422 | a stored will is streamed, as stored, iff no broker set is given or the broker field of its key, the broker id up to its first `:`, is not live; for a broker id without `:` that field is the id itself |
| Wills.StreamedWill | persistence.js:412-418 | any will key holding a string is streamed iff its broker is not live |

## Left out

- Transport errors, the connection and `destroy` (persistence.js:424-429) are not modelled. The only error modelled is a command meeting a key of the wrong kind, plus an abstract aborted transaction in `removeSubscriptions`.
- `_getPipeline`/`execPipeline` (persistence.js:38-49) and the MULTI and pipeline boundaries are not modelled. Each operation's commands apply in order, as one step, with no interleaving with other operations.
- Stream plumbing is not modelled: `scanStream` batches, the `count` hints, order and repeated keys. Streams are maps from key to decoded record.
- Qlobber matching, msgpack encoding and the aedes-packet constructor are `Env` parameters. They are constrained only by `Lawful` where a lemma needs it.
- Subscriptions.AddSubscriptions: requires a non-empty list. With no subscriptions, HMSET gets no field and the MULTI aborts. Line 119 then reads `length` of an undefined result. That crash is not modelled.
- Subscriptions.AddSubscriptions: does not report the `err` it passes to its callback. Line 119 reads the results before that `err` is looked at.
- Subscriptions.RemoveSubscriptionsWith: line 148 decides "skipped" by comparing each reverse-index result with `'0'`. The pipeline's results are `[err, reply]` pairs, so that test never holds and `skipped` is always 0. The test is kept as the parameter `skip`, and the contract states only the bounds of the decrement; `Views.SkipAsWritten` is the as-written instance. As written, removing a qos 0 or an absent subscription still lowers the subscriptions counter. The counter can go negative, and `countOffline` then never calls back (see Findings).
- Lookups.SubscriptionsByClient: when the key holds a string, the source calls `Object.keys` on an undefined reply and throws. The model reports `Failure(WrongType)` instead.
- Text.ParseInt: models decimal text with ASCII whitespace only. Hexadecimal, exponents and Unicode spaces are left out. The layer only stores decimal text.
- Store.IncrBy: has no 64-bit range check. Redis refuses a counter that would overflow.
- Outgoing.UpdateWithBrokerDataAsWritten: the callback is called when the EXEC answers, which can be before the late DEL runs. The model gives the store after both. A command the caller sends straight on the connection, in the same tick as that callback, could still run before the DEL, which the queued pipeline sends on the next tick; that interleaving is not modelled.
- Outgoing.AsWrittenAckLosesPostKey: requires that the pre-key held no packet with a message id > 0 before the send, as after outgoingEnqueue of a packet without one. Otherwise the send itself may already delete a post-key.
- Outgoing.OutgoingStream: a client id holding `:` or a glob character can select other clients' keys. Completeness is stated only for glob-free ids: an id holding `[` or `\` misses its own packets (see Findings).
- Outgoing.EnqueueThenStream: requires a client id without glob characters, because the as-written glob misses the packets of an id such as `a[b]`. `Outgoing.EnqueueThenStreamCorrected` states the property for every id.
- Views.AddKeepsInStep: in step is weaker than mirrored: a reverse entry may sit on a topic held at qos 0. addSubscriptions as written keeps only that (see Findings); the corrected add keeps the mirrored form.
- Retained.StoredRetainedStreamed: the matcher is a parameter, so the model does not prove that a matching topic always starts with the scan prefix. A matching topic outside it is not streamed.
- Wills.PutThenStream: a broker id holding `:` is cut at its first `:` in the will key, so such a will is judged by that cut id. The exact id is stated only for ids without `:`.
- Lookups.CountOfflineAsWritten: the source can call its callback twice when both reads fail. The model reports the first error.
- Wills.DelWill: when the read fails, the DEL callback calls back a second time. The model reports the first answer.
- Records.Packet: `messageId` is always a number. An undefined message id, which would read `undefined` in the key text, is not modelled.

## Findings

| source | as written | input that shows it | evidently intended | confidence | as-written member | corrected member |
|---|---|---|---|---|---|---|
| persistence.js:86 | the pattern's text before the first wildcard is spliced unescaped into the SCAN glob | retained topic `a[b]` and pattern `a[b]`: the glob `retained:a[b]*` treats `[b]` as a character class and misses the key | escape glob characters in the prefix | high, not executed | Retained.AsWrittenMissesBracketTopic | Retained.CreateRetainedStream |
| persistence.js:86 | the scan prefix of `a/#` is `retained:a/` | retained topic `a` and pattern `a/#`, which matches `a`: the key `retained:a` is never scanned | drop the `/` before a trailing `#` | medium, not executed | Retained.AsWrittenMissesParentTopic | Retained.CreateRetainedStream |
| persistence.js:139 | `hdel(clientSubKey, sub)` names the subscription object, which Redis receives as `[object Object]` | add `[{t, 1}]` for client C, then remove `[{t, 1}]`: `client:sub:C` still maps `t` to `1`, and subscriptionsByClient still reports it | `hdel(clientSubKey, sub.topic)` | high, not executed | Views.AsWrittenAddThenRemoveKeepsTopic | Subscriptions.RemoveSubscriptions |
| persistence.js:109-116 | the reverse entry is written only for qos > 0 and never removed, while HMSET on line 105 overwrites the qos | client C subscribes `[{t, 1}]` and then `[{t, 0}]`: `client:sub:C` maps `t` to `0`, `sub:client:t` still holds C, and subscriptionsByTopic still reports C on `t` | HDEL `sub:client:<topic>` for the client when the last qos for the topic is 0 | medium, not executed | Views.AsWrittenDowngradeKeepsEntry | Subscriptions.AddSubscriptionsCorrected |
| persistence.js:183-194 | the callback waits for `subsCount >= 0`, and `parseInt(null)` is `NaN` | a store with no `counter:offline:subscriptions` key (no subscription ever added): countOffline never calls back | read a missing counter as 0 | high, not executed | Lookups.CountOfflineAsWrittenSilence | Lookups.CountOfflineReadsCounters |
| persistence.js:338 | the client id is spliced unescaped into the `outgoing:<client>:*` glob | client `a[b]` gets a packet enqueued: its key `outgoing:a[b]:<brokerId>:<counter>` is not matched by `outgoing:a[b]:*`, so outgoingStream misses it | escape glob characters in the client id | medium, not executed | Outgoing.AsWrittenMissesBracketClient | Outgoing.OutgoingStreamCorrected |
| persistence.js:148 | each `[err, reply]` pair is compared with `'0'`, so nothing is ever counted as skipped | client C adds `[{t, 0}]` and then removes it: no HDEL of `sub:client:t` removes anything, yet `counter:offline:subscriptions` drops by one | count a reverse-index HDEL that answered 0 as skipped | medium, not executed | Views.AsWrittenZeroQosCounter | Views.CorrectedZeroQosCounter |
| persistence.js:263-270 | the GET of the pre-key reads the packet stored before the update, and the DEL its callback sends reaches Redis after the MULTI, deleting `outgoing-id:<client>:<id found>` even when that id is the new one | a packet is sent with message id `m > 0`, then updated again with only `m` (the PUBREL step): the second update deletes `outgoing-id:<client>:m`, so outgoingClearMessageId answers `no suck packet` and `outgoing:<client>:<brokerId>:<counter>` stays | delete the old post-key only when the id found differs from the new message id | medium, not executed | Outgoing.AsWrittenAckLosesPostKey | Outgoing.UpdateWithBrokerData |
