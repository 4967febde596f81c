/**
 * Retained messages: one `retained:<topic>` string per topic, and the stream that finds the
 * retained messages a subscription pattern matches by scanning a key prefix and filtering
 * the candidates with the topic matcher.
 */
module Retained {
  import opened Wrappers
  import opened Text
  import Glob
  import opened Records
  import opened Keys
  import opened Store

  /**
   * storeRetained: an empty payload deletes the topic's retained message, any other payload
   * replaces it with the encoded packet. No other key changes.
   */
  function StoreRetained(env: Env, db: Db, packet: Packet): (r: Db)
    ensures |packet.payload| == 0 ==> RetainedKey(packet.topic) !in r
    ensures 0 < |packet.payload| ==> RetainedKey(packet.topic) in r
    ensures 0 < |packet.payload| ==> r[RetainedKey(packet.topic)] == Str(env.packets.encode(packet))
    ensures forall k :: k != RetainedKey(packet.topic) ==> (k in r <==> k in db)
    ensures forall k :: k != RetainedKey(packet.topic) && k in r ==> r[k] == db[k]
  {
    var key := RetainedKey(packet.topic);
    if |packet.payload| == 0 then Del(db, key) else Set(db, key, env.packets.encode(packet)).1
  }

  lemma StoreRetainedWellTyped(env: Env, db: Db, packet: Packet)
    requires WellTyped(db)
    ensures WellTyped(StoreRetained(env, db, packet))
  {
  }

  /** `splitArray`: the candidates whose topic, the key after `retained:`, the pattern matches. */
  function MatchingRetained(env: Env, candidates: set<string>, pattern: string): (r: set<string>)
    ensures r <= candidates
    ensures forall k :: k in candidates ==> (k in r <==> env.matches(pattern, Drop(k, |RetainedPrefix|)))
  {
    set k | k in candidates && env.matches(pattern, Drop(k, |RetainedPrefix|))
  }

  /** The retained keys a stream over the SCAN glob `glob` emits, decoded. */
  function RetainedStream(env: Env, db: Db, pattern: string, glob: string): Result<map<string, Packet>, Error> {
    FetchRecords(db, MatchingRetained(env, Scan(db, glob), pattern), env.packets)
  }

  // ------------------------------------------------------------ as written

  /** The SCAN glob createRetainedStream sends: `retained:`, the pattern up to its first wildcard, `*`. */
  function ScanGlobAsWritten(pattern: string): string {
    RetainedPrefix + BeforeWildcard(pattern) + "*"
  }

  /**
   * createRetainedStream as written. Every key it emits is a `retained:` key whose topic the
   * pattern matches, decoded from what the store holds; it finds every matching topic that
   * starts with the pattern's text before the first wildcard, provided that text holds no
   * glob character.
   */
  function CreateRetainedStreamAsWritten(env: Env, db: Db, pattern: string): (r: Result<map<string, Packet>, Error>)
    ensures r.Success? ==> forall k :: k in r.value ==>
      && StartsWith(k, RetainedPrefix) && env.matches(pattern, Drop(k, |RetainedPrefix|))
      && k in db && db[k].Str? && r.value[k] == env.packets.decode(db[k].text)
    ensures r.Success? && Glob.Plain(BeforeWildcard(pattern)) ==>
      forall t :: RetainedKey(t) in db && StartsWith(t, BeforeWildcard(pattern)) && env.matches(pattern, t) ==>
        RetainedKey(t) in r.value
    ensures WellTyped(db) ==> r.Success?
  {
    var glob := ScanGlobAsWritten(pattern);
    AsWrittenScanBounds(db, pattern);
    RetainedStream(env, db, pattern, glob)
  }

  /** The `retained:` key of a topic free of glob characters is free of them too. */
  lemma PlainRetainedKey(topic: string)
    requires Glob.Plain(topic)
    ensures Glob.Plain(RetainedKey(topic))
  {
    var lit := RetainedKey(topic);
    forall i | 0 <= i < |lit| ensures !Glob.IsMeta(lit[i]) {
      if i >= |RetainedPrefix| {
        assert lit[i] == topic[i - |RetainedPrefix|];
      }
    }
  }

  /** What the as-written glob selects: only `retained:` keys, and every key under the prefix when it is plain. */
  lemma AsWrittenScanBounds(db: Db, pattern: string)
    ensures forall k :: k in Scan(db, ScanGlobAsWritten(pattern)) ==> StartsWith(k, RetainedPrefix)
    ensures Glob.Plain(BeforeWildcard(pattern)) ==>
      forall t :: RetainedKey(t) in db && StartsWith(t, BeforeWildcard(pattern)) ==>
        RetainedKey(t) in Scan(db, ScanGlobAsWritten(pattern))
  {
    var glob := ScanGlobAsWritten(pattern);
    assert glob == RetainedPrefix + (BeforeWildcard(pattern) + "*");
    forall k | k in db && Glob.Match(glob, k)
      ensures StartsWith(k, RetainedPrefix)
    {
      Glob.PlainThen(RetainedPrefix, BeforeWildcard(pattern) + "*", k);
    }
    if Glob.Plain(BeforeWildcard(pattern)) {
      var lit := RetainedKey(BeforeWildcard(pattern));
      assert glob == lit + "*";
      PlainRetainedKey(BeforeWildcard(pattern));
      forall t | RetainedKey(t) in db && StartsWith(t, BeforeWildcard(pattern))
        ensures RetainedKey(t) in Scan(db, glob)
      {
        StartsWithPrepend(RetainedPrefix, t, BeforeWildcard(pattern));
        Glob.PlainScan(lit, RetainedKey(t));
      }
    }
  }

  // ------------------------------------------------------------- corrected

  /**
   * The literal text every topic a pattern matches starts with: the pattern before its first
   * wildcard, less the separator in front of a `#`, because `a/#` also matches `a`
   * (section 4.7.1.2 of MQTT 3.1.1).
   */
  function ScanPrefix(pattern: string): (r: string)
    ensures StartsWith(BeforeWildcard(pattern), r)
    ensures r == BeforeWildcard(pattern) || (
      && BeforeWildcard(pattern) == r + "/"
      && |BeforeWildcard(pattern)| < |pattern| && pattern[|BeforeWildcard(pattern)|] == '#')
  {
    var before := BeforeWildcard(pattern);
    if |before| < |pattern| && pattern[|before|] == '#' && 0 < |before| && before[|before| - 1] == '/'
    then before[..|before| - 1]
    else before
  }

  /** The SCAN glob with the prefix escaped, so glob characters in a topic stand for themselves. */
  function ScanGlob(pattern: string): string {
    Glob.Escape(RetainedKey(ScanPrefix(pattern))) + "*"
  }

  /**
   * createRetainedStream with its scan corrected. It emits exactly the `retained:` keys that
   * start with the scan prefix and whose topic the pattern matches, each decoded from what
   * the store holds.
   */
  function CreateRetainedStream(env: Env, db: Db, pattern: string): (r: Result<map<string, Packet>, Error>)
    ensures r.Success? ==> forall k :: k in r.value ==>
      && StartsWith(k, RetainedPrefix) && env.matches(pattern, Drop(k, |RetainedPrefix|))
      && StartsWith(Drop(k, |RetainedPrefix|), ScanPrefix(pattern))
      && k in db && db[k].Str? && r.value[k] == env.packets.decode(db[k].text)
    ensures r.Success? ==>
      forall t :: RetainedKey(t) in db && StartsWith(t, ScanPrefix(pattern)) && env.matches(pattern, t) ==>
        RetainedKey(t) in r.value
    ensures WellTyped(db) ==> r.Success?
  {
    var glob := ScanGlob(pattern);
    CorrectedScanBounds(db, pattern);
    RetainedStream(env, db, pattern, glob)
  }

  /** The corrected glob selects exactly the `retained:` keys whose topic starts with the scan prefix. */
  lemma CorrectedScanBounds(db: Db, pattern: string)
    ensures forall k :: k in Scan(db, ScanGlob(pattern)) ==>
      StartsWith(k, RetainedPrefix) && StartsWith(Drop(k, |RetainedPrefix|), ScanPrefix(pattern))
    ensures forall t :: RetainedKey(t) in db && StartsWith(t, ScanPrefix(pattern)) ==>
      RetainedKey(t) in Scan(db, ScanGlob(pattern))
  {
    var glob := ScanGlob(pattern);
    var lit := RetainedKey(ScanPrefix(pattern));
    forall k | k in db && Glob.Match(glob, k)
      ensures StartsWith(k, RetainedPrefix) && StartsWith(Drop(k, |RetainedPrefix|), ScanPrefix(pattern))
    {
      Glob.EscapedScan(lit, k);
      StartsWithShorter(k, RetainedPrefix, ScanPrefix(pattern));
      StartsWithDrop(k, RetainedPrefix, ScanPrefix(pattern));
    }
    forall t | RetainedKey(t) in db && StartsWith(t, ScanPrefix(pattern))
      ensures RetainedKey(t) in Scan(db, glob)
    {
      StartsWithPrepend(RetainedPrefix, t, ScanPrefix(pattern));
      Glob.EscapedScan(lit, RetainedKey(t));
    }
  }

  /**
   * Every topic that starts with the pattern's text before its first wildcard also starts
   * with the corrected scan prefix, so the corrected scan reaches every topic the as-written
   * scan reaches by its literal prefix. The as-written glob can reach further topics only
   * through glob characters in that text (`a?c` reaches `abc`), which the corrected scan reads
   * literally.
   */
  lemma CorrectedScanCovers(pattern: string, t: string)
    requires StartsWith(t, BeforeWildcard(pattern))
    ensures StartsWith(t, ScanPrefix(pattern))
  {
    var before := BeforeWildcard(pattern);
    var r := ScanPrefix(pattern);
    assert before == r + before[|r|..];
    StartsWithShorter(t, r, before[|r|..]);
  }

  /**
   * When the pattern's text before its first wildcard holds no glob character, the as-written
   * scan stays under `retained:` and that text.
   */
  lemma AsWrittenScanWithinPrefix(pattern: string, k: string)
    requires Glob.Plain(BeforeWildcard(pattern)) && Glob.Match(ScanGlobAsWritten(pattern), k)
    ensures StartsWith(k, RetainedKey(BeforeWildcard(pattern)))
  {
    assert ScanGlobAsWritten(pattern) == RetainedKey(BeforeWildcard(pattern)) + "*";
    PlainRetainedKey(BeforeWildcard(pattern));
    Glob.PlainScan(RetainedKey(BeforeWildcard(pattern)), k);
  }

  /** A pattern `lit/#` scans from `lit`, so it reaches the parent topic `lit` and every topic below it. */
  lemma ScanPrefixOfMultiLevel(lit: string)
    requires forall i :: 0 <= i < |lit| ==> lit[i] != '#' && lit[i] != '+'
    ensures ScanPrefix(lit + "/#") == lit
  {
    var pattern := lit + "/#";
    var before := BeforeWildcard(pattern);
    assert pattern[|lit|] == '/' && pattern[|lit| + 1] == '#';
    assert |before| == |lit| + 1;
    assert before == lit + "/" by {
      assert before == pattern[..|lit| + 1];
    }
    assert before[..|before| - 1] == lit;
  }

  // ----------------------------------------------------- stated properties

  /** After an empty payload is stored for a topic, no retained stream yields that topic. */
  lemma ClearedRetainedNotStreamed(env: Env, db: Db, packet: Packet, pattern: string)
    requires |packet.payload| == 0
    ensures var r := CreateRetainedStream(env, StoreRetained(env, db, packet), pattern);
      r.Success? ==> RetainedKey(packet.topic) !in r.value
    ensures var r := CreateRetainedStreamAsWritten(env, StoreRetained(env, db, packet), pattern);
      r.Success? ==> RetainedKey(packet.topic) !in r.value
  {
  }

  /**
   * A stored retained message comes back, as the packet stored, from the stream of a pattern
   * exactly when the pattern matches its topic and the topic starts with the pattern's scan
   * prefix.
   */
  lemma StoredRetainedStreamed(env: Env, db: Db, packet: Packet, pattern: string)
    requires Lawful(env.packets) && WellTyped(db)
    requires 0 < |packet.payload|
    ensures var r := CreateRetainedStream(env, StoreRetained(env, db, packet), pattern);
      && r.Success?
      && (RetainedKey(packet.topic) in r.value <==> env.matches(pattern, packet.topic) && StartsWith(packet.topic, ScanPrefix(pattern)))
      && (RetainedKey(packet.topic) in r.value ==> r.value[RetainedKey(packet.topic)] == packet)
  {
    StoreRetainedWellTyped(env, db, packet);
    var key := RetainedKey(packet.topic);
    assert Drop(key, |RetainedPrefix|) == packet.topic;
  }

  /**
   * Storing `[1, 2, 3]` on `x/y` and then an empty payload on `x/y` leaves nothing for
   * `x/#` to stream, starting from an empty store.
   */
  lemma RetainThenClearScenario(env: Env)
    ensures var p := Packet("x/y", [1 as char, 2 as char, 3 as char], 0, true, 0, None, None, None);
      var db := StoreRetained(env, StoreRetained(env, map[], p), p.(payload := ""));
      CreateRetainedStream(env, db, "x/#") == Success(map[])
  {
    var p := Packet("x/y", [1 as char, 2 as char, 3 as char], 0, true, 0, None, None, None);
    var db := StoreRetained(env, StoreRetained(env, map[], p), p.(payload := ""));
    assert db == map[];
  }

  // -------------------------------------------------------------- findings

  /** The glob `retained:a[b]*` does not select the key `retained:a[b]`: `[b]` is a class matching `b`. */
  lemma BracketGlobMisses()
    ensures !Glob.Match(ScanGlobAsWritten("a[b]"), RetainedKey("a[b]"))
  {
    assert BeforeWildcard("a[b]") == "a[b]";
    var lit := "retained:a";
    assert Glob.Plain(lit);
    assert ScanGlobAsWritten("a[b]") == lit + "[b]*";
    assert RetainedKey("a[b]") == lit + "[b]";
    Glob.PlainThen(lit, "[b]*", RetainedKey("a[b]"));
    assert RetainedKey("a[b]")[|lit|..] == "[b]";
    ClassMissesBracket();
  }

  /** The class `[b]` holds `b` only, so it does not match the `[` the literal topic starts with. */
  lemma ClassMissesBracket()
    ensures !Glob.Match("[b]*", "[b]")
  {
    assert Glob.ClassItems("]*", '[') == (false, "*");
    assert Glob.ClassItems("b]*", '[') == (false, "*");
  }

  /**
   * A retained message on a topic with a `[` in it is never streamed as written, although the
   * pattern naming that very topic matches it; the corrected stream finds it.
   */
  lemma AsWrittenMissesBracketTopic(env: Env, db: Db)
    requires env.matches("a[b]", "a[b]")
    requires RetainedKey("a[b]") in db && WellTyped(db)
    ensures var r := CreateRetainedStreamAsWritten(env, db, "a[b]");
      r.Success? && RetainedKey("a[b]") !in r.value
    ensures var r := CreateRetainedStream(env, db, "a[b]");
      r.Success? && RetainedKey("a[b]") in r.value
  {
    BracketGlobMisses();
    assert BeforeWildcard("a[b]") == "a[b]";
    assert ScanPrefix("a[b]") == "a[b]";
    DropPrefix("a[b]", "");
    assert "a[b]" + "" == "a[b]";
  }

  /**
   * `a/#` also matches the parent topic `a`, but the as-written scan looks only under
   * `retained:a/`, so the retained message of `a` is never streamed; the corrected scan
   * starts at `retained:a` and finds it.
   */
  lemma AsWrittenMissesParentTopic(env: Env, db: Db)
    requires env.matches("a/#", "a")
    requires RetainedKey("a") in db && WellTyped(db)
    ensures var r := CreateRetainedStreamAsWritten(env, db, "a/#");
      r.Success? && RetainedKey("a") !in r.value
    ensures var r := CreateRetainedStream(env, db, "a/#");
      r.Success? && RetainedKey("a") in r.value
  {
    assert "a/#" == "a" + "/#";
    ScanPrefixOfMultiLevel("a");
    assert BeforeWildcard("a/#") == "a/";
    var glob := ScanGlobAsWritten("a/#");
    assert glob == "retained:a/" + "*";
    assert Glob.Plain("retained:a/");
    Glob.PlainScan("retained:a/", RetainedKey("a"));
    assert !StartsWith(RetainedKey("a"), "retained:a/");
    DropPrefix("a", "");
    assert "a" + "" == "a";
  }
}
