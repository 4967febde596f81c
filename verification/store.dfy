/**
 * The Redis keyspace as an immutable value, and the commands the persistence layer sends.
 * A key holds a string or a hash; integers are strings of decimal text, as in Redis.
 * A write that meets a key holding the other kind of value leaves it alone (inside MULTI,
 * Redis answers that command with a WRONGTYPE error reply and runs the rest); a read that
 * meets one reports `WrongType` to its callback.
 */
module Store {
  import opened Wrappers
  import opened Text
  import opened Keys
  import opened Records
  import Glob

  datatype Value = Str(text: string) | Hash(fields: map<string, string>)

  type Db = map<string, Value>

  /** What an operation can report to its callback. */
  datatype Error =
    | WrongType                       // a read met a key holding the other kind of value
    | NoSuchPacket(message: string)   // a lookup the operation needs found nothing
    | ExecFailed                      // EXEC reported an error for the whole transaction

  /** The reply of one command inside a transaction. */
  datatype Reply = IntReply(n: int) | ErrorReply

  /** `key` is in both stores or in neither, with the same value. */
  predicate Agree(db: Db, r: Db, key: string) {
    (key in r <==> key in db) && (key in r ==> r[key] == db[key])
  }

  // ------------------------------------------------------------------- reads

  /** The key is absent or holds a hash. */
  predicate HashOrAbsent(db: Db, key: string) {
    key !in db || db[key].Hash?
  }

  /** The fields of the hash at `key`; a missing key reads as an empty hash. */
  function Fields(db: Db, key: string): map<string, string> {
    if key in db && db[key].Hash? then db[key].fields else map[]
  }

  /** GET: the string at `key`, `None` (nil) when absent. */
  function Get(db: Db, key: string): (r: Result<Option<string>, Error>)
    ensures r.Failure? <==> key in db && db[key].Hash?
    ensures r == Success(None) <==> key !in db
    ensures key in db && db[key].Str? ==> r == Success(Some(db[key].text))
  {
    if key !in db then Success(None)
    else if db[key].Str? then Success(Some(db[key].text))
    else Failure(WrongType)
  }

  /** HGETALL: the fields of the hash at `key`, empty when absent. */
  function HGetAll(db: Db, key: string): (r: Result<map<string, string>, Error>)
    ensures r.Failure? <==> key in db && db[key].Str?
    ensures r.Success? ==> r.value == Fields(db, key)
    ensures key !in db ==> r == Success(map[])
  {
    if HashOrAbsent(db, key) then Success(Fields(db, key)) else Failure(WrongType)
  }

  /**
   * SCAN with MATCH: the keys the glob selects. The cursor loop, its batches and the
   * `count` hint only decide how the keys arrive, so the model returns them as one set.
   */
  function Scan(db: Db, glob: string): (r: set<string>)
    ensures r <= db.Keys
  {
    set k | k in db && Glob.Match(glob, k)
  }

  /**
   * GET of every key in `keys`, decoded: what the streams built on `_decodeAndAugment`
   * emit, keyed by the key they read. A key holding a hash makes the stream fail.
   */
  function FetchRecords<T>(db: Db, keys: set<string>, codec: Codec<T>): (r: Result<map<string, T>, Error>)
    requires keys <= db.Keys
    ensures r.Success? <==> forall k :: k in keys ==> db[k].Str?
    ensures r.Success? ==> r.value.Keys == keys
    ensures r.Success? ==> forall k :: k in keys ==> r.value[k] == codec.decode(db[k].text)
  {
    if exists k :: k in keys && db[k].Hash? then Failure(WrongType)
    else Success(map k | k in keys :: codec.decode(db[k].text))
  }

  // ------------------------------------------------------------------ writes

  /** SET: replaces whatever `key` held; Redis always answers `OK`. */
  function Set(db: Db, key: string, text: string): (r: (string, Db))
    ensures r.0 == "OK"
    ensures Get(r.1, key) == Success(Some(text))
    ensures forall k :: k != key ==> Agree(db, r.1, k)
    ensures WellTyped(db) && !IsHashSpace(NamespaceOf(key)) && !IsCounterSpace(NamespaceOf(key)) ==> WellTyped(r.1)
  {
    ("OK", db[key := Str(text)])
  }

  /** DEL. */
  function Del(db: Db, key: string): (r: Db)
    ensures key !in r && Get(r, key) == Success(None)
    ensures forall k :: k != key ==> Agree(db, r, k)
    ensures WellTyped(db) ==> WellTyped(r)
  {
    db - {key}
  }

  /** HSET of one field: only that field of that hash changes; a key holding a string stays as it is. */
  function HSet(db: Db, key: string, field: string, text: string): (r: Db)
    ensures HashOrAbsent(db, key) ==> key in r && r[key].Hash? && Fields(r, key) == Fields(db, key)[field := text]
    ensures !HashOrAbsent(db, key) ==> r == db
    ensures forall k :: k != key ==> Agree(db, r, k)
    ensures forall k :: HashOrAbsent(db, k) ==> HashOrAbsent(r, k)
    ensures WellTyped(db) && IsHashSpace(NamespaceOf(key)) ==> WellTyped(r)
  {
    if HashOrAbsent(db, key) then
      assert field in Fields(db, key)[field := text];
      db[key := Hash(Fields(db, key)[field := text])]
    else db
  }

  /** HMSET: merges `m` into the hash; with no fields Redis rejects the command. */
  function HMSet(db: Db, key: string, m: map<string, string>): (r: Db)
    ensures HashOrAbsent(db, key) && m != map[] ==> key in r && r[key].Hash? && Fields(r, key) == Fields(db, key) + m
    ensures !(HashOrAbsent(db, key) && m != map[]) ==> r == db
    ensures forall k :: k != key ==> Agree(db, r, k)
    ensures forall k :: HashOrAbsent(db, k) ==> HashOrAbsent(r, k)
    ensures WellTyped(db) && IsHashSpace(NamespaceOf(key)) ==> WellTyped(r)
  {
    if HashOrAbsent(db, key) && m != map[] then
      assert exists f :: f in m;
      db[key := Hash(Fields(db, key) + m)]
    else db
  }

  /** HDEL of one field: replies how many fields it removed; a hash left empty disappears. */
  function HDel(db: Db, key: string, field: string): (r: (Reply, Db))
    ensures Fields(r.1, key) == Fields(db, key) - {field}
    ensures field in Fields(db, key) && Fields(db, key) - {field} == map[] ==> key !in r.1
    ensures key !in db ==> key !in r.1
    ensures r.0 == if !HashOrAbsent(db, key) then ErrorReply else IntReply(if field in Fields(db, key) then 1 else 0)
    ensures forall k :: k != key ==> Agree(db, r.1, k)
    ensures forall k :: HashOrAbsent(db, k) ==> HashOrAbsent(r.1, k)
    ensures WellTyped(db) ==> WellTyped(r.1)
  {
    if !HashOrAbsent(db, key) then (ErrorReply, db)
    else if field !in Fields(db, key) then (IntReply(0), db)
    else
      var rest := Fields(db, key) - {field};
      (IntReply(1), if rest == map[] then db - {key} else db[key := Hash(rest)])
  }

  /**
   * HDEL of `field` on every key in `keys`, as one step: a hash left empty disappears, a key
   * holding a string stays as it is.
   */
  function DropField(db: Db, keys: set<string>, field: string): (r: Db)
    ensures forall k :: k in keys ==> Fields(r, k) == Fields(db, k) - {field}
    ensures forall k :: k !in keys ==> Agree(db, r, k)
    ensures forall k :: HashOrAbsent(db, k) ==> HashOrAbsent(r, k)
    ensures WellTyped(db) ==> WellTyped(r)
  {
    var r := DropMap(db, keys, field);
    DropMapFields(db, keys, field);
    DropMapFrame(db, keys, field);
    DropMapWellTyped(db, keys, field);
    r
  }

  /** The hashes among `keys` that lose their last field. */
  predicate Emptied(db: Db, keys: set<string>, field: string, k: string) {
    k in db && k in keys && db[k].Hash? && field in db[k].fields && db[k].fields - {field} == map[]
  }

  function DropMap(db: Db, keys: set<string>, field: string): Db {
    map k | k in db && !Emptied(db, keys, field, k) ::
      if k in keys && db[k].Hash? then Hash(db[k].fields - {field}) else db[k]
  }

  lemma DropMapFields(db: Db, keys: set<string>, field: string)
    ensures forall k :: k in keys ==> Fields(DropMap(db, keys, field), k) == Fields(db, k) - {field}
  {
    var r := DropMap(db, keys, field);
    forall k | k in keys ensures Fields(r, k) == Fields(db, k) - {field} {
      if Emptied(db, keys, field, k) {
        assert k !in r;
      }
    }
  }

  lemma DropMapFrame(db: Db, keys: set<string>, field: string)
    ensures forall k :: k !in keys ==> Agree(db, DropMap(db, keys, field), k)
    ensures forall k :: HashOrAbsent(db, k) ==> HashOrAbsent(DropMap(db, keys, field), k)
  {
  }

  lemma DropMapWellTyped(db: Db, keys: set<string>, field: string)
    ensures WellTyped(db) ==> WellTyped(DropMap(db, keys, field))
  {
    var r := DropMap(db, keys, field);
    forall k | k in r && WellTyped(db) ensures Fits(NamespaceOf(k), r[k]) {
      assert Fits(NamespaceOf(k), db[k]);
    }
  }

  /** On one key, `DropField` is HDEL. */
  lemma DropFieldOne(db: Db, key: string, field: string)
    ensures DropField(db, {key}, field) == HDel(db, key, field).1
  {
    var a := DropField(db, {key}, field);
    var b := HDel(db, key, field).1;
    assert forall k :: k in a <==> k in b;
    assert forall k :: k in a ==> a[k] == b[k];
  }

  /** `DropField` on several keys is the HDELs one key after another, in any order. */
  lemma DropFieldSplit(db: Db, keys: set<string>, key: string, field: string)
    requires key !in keys
    ensures DropField(db, keys + {key}, field) == DropField(HDel(db, key, field).1, keys, field)
  {
    var a := DropField(db, keys + {key}, field);
    var b := DropField(HDel(db, key, field).1, keys, field);
    forall k ensures Agree(a, b, k) {
      DropFieldSplitAt(db, keys, key, field, k);
    }
    AgreeEverywhere(a, b);
  }

  /** Stores that agree on every key are the same store. */
  lemma AgreeEverywhere(a: Db, b: Db)
    requires forall k :: Agree(a, b, k)
    ensures a == b
  {
    forall k ensures (k in a <==> k in b) && (k in a ==> a[k] == b[k]) {
      assert Agree(a, b, k);
    }
    assert a.Keys == b.Keys;
  }

  lemma DropFieldSplitAt(db: Db, keys: set<string>, key: string, field: string, k: string)
    requires key !in keys
    ensures Agree(DropField(db, keys + {key}, field), DropField(HDel(db, key, field).1, keys, field), k)
  {
    var d := HDel(db, key, field).1;
    if k == key {
      DropFieldOne(db, key, field);
    } else {
      assert Agree(db, d, k);
    }
  }

  /** The integer a counter key holds; a missing key counts as 0. */
  function CounterOf(db: Db, key: string): int {
    if key in db && db[key].Str? && CanonicalInt(db[key].text).Some? then CanonicalInt(db[key].text).value
    else 0
  }

  /** The key is absent or holds an integer, so INCRBY can apply to it. */
  predicate IsCounter(db: Db, key: string) {
    key !in db || (db[key].Str? && CanonicalInt(db[key].text).Some?)
  }

  /** INCRBY (and DECRBY with a negated amount). */
  function IncrBy(db: Db, key: string, delta: int): (r: Db)
    ensures IsCounter(db, key) ==> IsCounter(r, key) && CounterOf(r, key) == CounterOf(db, key) + delta
    ensures !IsCounter(db, key) ==> r == db
    ensures forall k :: k != key ==> Agree(db, r, k)
    ensures WellTyped(db) && IsCounterSpace(NamespaceOf(key)) ==> WellTyped(r)
  {
    if IsCounter(db, key) then
      ParseIntText(CounterOf(db, key) + delta);
      CounterWellTyped(db, key, CounterOf(db, key) + delta);
      db[key := Str(IntText(CounterOf(db, key) + delta))]
    else db
  }

  /** Writing a number's text to a counter key keeps the store well typed. */
  lemma CounterWellTyped(db: Db, key: string, n: int)
    ensures WellTyped(db) && IsCounterSpace(NamespaceOf(key)) ==> WellTyped(db[key := Str(IntText(n))])
  {
    ParseIntText(n);
  }

  // --------------------------------------------------------------- invariant

  /** A value of the kind its key family stores. */
  predicate Fits(ns: Namespace, v: Value) {
    && (IsHashSpace(ns) ==> v.Hash? && v.fields != map[])
    && (IsCounterSpace(ns) ==> v.Str? && CanonicalInt(v.text).Some?)
    && (IsRecordSpace(ns) ==> v.Str?)
  }

  /** Every key of a family the layer owns holds the kind of value that family stores. */
  ghost predicate WellTyped(db: Db) {
    forall k :: k in db ==> Fits(NamespaceOf(k), db[k])
  }

  /** In a well-typed store every command of the layer finds the kind of value it expects. */
  lemma WellTypedKinds(db: Db, key: string)
    requires WellTyped(db)
    ensures IsHashSpace(NamespaceOf(key)) ==> HashOrAbsent(db, key) && (key in db ==> Fields(db, key) != map[])
    ensures IsCounterSpace(NamespaceOf(key)) ==> IsCounter(db, key)
    ensures IsRecordSpace(NamespaceOf(key)) ==> key !in db || db[key].Str?
  {
  }
}
