/** Named data: a write-once, deduplicating store with a cache in front of it. */
module Datastore {
  import opened Bytes
  import opened Subsequences

  datatype Pair = Pair(name: string, data: bytes)
  datatype Entry = Entry(name: string, file: string)

  /** The name database, in insertion order, and the blob files by digest. */
  datatype Storage = Storage(db: seq<Entry>, blobs: map<string, bytes>)

  predicate Sound(st: Storage) {
    forall i :: 0 <= i < |st.db| ==> st.db[i].file in st.blobs
  }

  predicate Taken(db: seq<Entry>, name: string) {
    exists i :: 0 <= i < |db| && db[i].name == name
  }

  /** Stores data under a new name; data with a known digest is not written again. */
  function Store(sha1: bytes -> string, st: Storage, name: string, data: bytes): (r: Storage)
    requires Sound(st)
    ensures Sound(r)
  {
    if Taken(st.db, name) then st
    else
      var file := sha1(data);
      var blobs := if file in st.blobs then st.blobs else st.blobs[file := data];
      Storage(st.db + [Entry(name, file)], blobs)
  }

  /** All names with their data, in insertion order. */
  function Pairs(st: Storage): (r: seq<Pair>)
    requires Sound(st)
    ensures |r| == |st.db|
  {
    seq(|st.db|, i requires 0 <= i < |st.db| => Pair(st.db[i].name, st.blobs[st.db[i].file]))
  }

  /** The pairs whose name starts with `key`. */
  function WithPrefix(pairs: seq<Pair>, key: string): (r: seq<Pair>)
    ensures forall p :: p in r <==> p in pairs && key <= p.name
  {
    if pairs == [] then []
    else
      var n := |pairs| - 1;
      assert pairs == pairs[..n] + [pairs[n]];
      WithPrefix(pairs[..n], key) + if key <= pairs[n].name then [pairs[n]] else []
  }

  function Load(st: Storage, key: string): (r: seq<Pair>)
    requires Sound(st)
  {
    WithPrefix(Pairs(st), key)
  }

  // The cache

  datatype Cached = Cached(key: string, value: seq<Pair>)

  predicate UniqueKeys(cache: seq<Cached>) {
    forall i, j :: 0 <= i < j < |cache| ==> cache[i].key != cache[j].key
  }

  function Find(cache: seq<Cached>, key: string): (i: nat)
    ensures i <= |cache| && (i < |cache| ==> cache[i].key == key)
    ensures i == |cache| ==> forall j :: 0 <= j < |cache| ==> cache[j].key != key
  {
    if cache == [] || cache[0].key == key then 0 else 1 + Find(cache[1..], key)
  }

  function Lookup(cache: seq<Cached>, key: string): (r: Option<seq<Pair>>) {
    var i := Find(cache, key);
    if i < |cache| then Some(cache[i].value) else None
  }

  /** Stores a value, evicting the oldest entry when a new key meets a full cache. */
  function CachePut(limit: nat, cache: seq<Cached>, key: string, value: seq<Pair>): (r: seq<Cached>)
  {
    var i := Find(cache, key);
    if i < |cache| then cache[i := Cached(key, value)]
    else if |cache| >= limit && cache != [] then cache[1..] + [Cached(key, value)]
    else cache + [Cached(key, value)]
  }

  function Invalidate(cache: seq<Cached>, key: string): (r: seq<Cached>) {
    var i := Find(cache, key);
    if i < |cache| then cache[..i] + cache[i + 1..] else cache
  }

  class DataCache {
    const limit: nat
    var entries: seq<Cached>

    constructor (limit: nat)
      ensures this.limit == limit && entries == []
    {
      this.limit, entries := limit, [];
    }

    method Get(key: string) returns (r: Option<seq<Pair>>)
      ensures r == Lookup(entries, key)
    {
      var i := Find(entries, key);
      if i < |entries| { return Some(entries[i].value); }
      return None;
    }

    method Put(key: string, value: seq<Pair>)
      modifies this`entries
      ensures entries == CachePut(limit, old(entries), key, value)
    {
      var i := Find(entries, key);
      var present := i < |entries|;
      if !present && |entries| >= limit {
        if entries != [] {
          entries := entries[1..];
        }
      }
      if present {
        entries := entries[i := Cached(key, value)];
      } else {
        entries := entries + [Cached(key, value)];
      }
    }

    method Drop(key: string)
      modifies this`entries
      ensures entries == Invalidate(old(entries), key)
    {
      var i := Find(entries, key);
      if i < |entries| {
        entries := entries[..i] + entries[i + 1..];
      }
    }
  }

  /** The node: storage and cache, and the handlers for the two kinds of data bundles. */
  class Datastore {
    const sha1: bytes -> string
    const cache: DataCache
    var storage: Storage

    constructor (sha1: bytes -> string, limit: nat)
      ensures this.sha1 == sha1 && fresh(cache) && cache.limit == limit
      ensures storage == Storage([], map[]) && cache.entries == []
    {
      this.sha1, storage := sha1, Storage([], map[]);
      cache := new DataCache(limit);
    }

    method HandlePut(name: string, data: bytes) returns (success: bool)
      requires Sound(storage)
      modifies this, cache
      ensures Sound(storage)
      ensures success == (name != "" && !Taken(old(storage).db, name))
      ensures storage == if success then Store(sha1, old(storage), name, data) else old(storage)
      ensures cache.entries == if success then Invalidate(old(cache.entries), name) else old(cache.entries)
    {
      if name == "" { return false; }
      for i := 0 to |storage.db|
        invariant storage == old(storage) && cache.entries == old(cache.entries)
        invariant forall j :: 0 <= j < i ==> storage.db[j].name != name
      {
        if storage.db[i].name == name { return false; }
      }
      var file := sha1(data);
      if file !in storage.blobs {
        storage := Storage(storage.db, storage.blobs[file := data]);
      }
      storage := Storage(storage.db + [Entry(name, file)], storage.blobs);
      cache.Drop(name);
      return true;
    }

    method LoadData(key: string) returns (found: seq<Pair>)
      requires Sound(storage)
      ensures found == Load(storage, key)
    {
      found := [];
      var all := Pairs(storage);
      for i := 0 to |storage.db|
        invariant found == WithPrefix(all[..i], key)
      {
        assert all[..i + 1][..i] == all[..i];
        if key <= storage.db[i].name {
          found := found + [Pair(storage.db[i].name, storage.blobs[storage.db[i].file])];
        }
      }
      assert all[..|all|] == all;
    }

    method HandleGet(name: string) returns (answer: seq<Pair>)
      requires Sound(storage)
      modifies cache
      ensures answer == Answer(storage, cache.limit, old(cache.entries), name).0
      ensures cache.entries == Answer(storage, cache.limit, old(cache.entries), name).1
    {
      if name == "" { return []; }
      var hit := cache.Get(name);
      if hit.Some? { return hit.value; }
      answer := LoadData(name);
      if answer != [] {
        cache.Put(name, answer);
      }
    }
  }

  /** The answer to a GET, and the cache after it. */
  function Answer(st: Storage, limit: nat, cache: seq<Cached>, name: string): (seq<Pair>, seq<Cached>)
    requires Sound(st)
  {
    if name == "" then ([], cache)
    else
      match Lookup(cache, name)
      case Some(value) => (value, cache)
      case None =>
        var found := Load(st, name);
        (found, if found == [] then cache else CachePut(limit, cache, name, found))
  }

  /**
    * Every non-empty answer is cached, nothing else is, and asking again gives the same answer and
    * changes nothing.
    */
  lemma GetIsRepeatable(st: Storage, limit: nat, cache: seq<Cached>, name: string)
    requires Sound(st) && UniqueKeys(cache)
    ensures var (answer, after) := Answer(st, limit, cache, name);
            && Answer(st, limit, after, name) == (answer, after)
            && (answer == [] ==> after == cache) && (name == "" ==> answer == [])
            && (answer != [] ==> Lookup(after, name) == Some(answer))
  {
    hide Load, CachePut, Lookup;
    CachePutLookup(limit, cache, name, Load(st, name), name);
  }

  // Runs

  datatype Op = Put(name: string, data: bytes) | Get(name: string)

  /** The datastore; `stamps` is history: how many names were stored when a key was last cached. */
  datatype State = State(storage: Storage, cache: seq<Cached>, stamps: map<string, nat>)

  const EMPTY := State(Storage([], map[]), [], map[])

  function Step(sha1: bytes -> string, limit: nat, s: State, op: Op): (t: State)
    requires Sound(s.storage)
    ensures Sound(t.storage)
  {
    match op
    case Put(name, data) =>
      if name == "" || Taken(s.storage.db, name) then s
      else s.(storage := Store(sha1, s.storage, name, data), cache := Invalidate(s.cache, name))
    case Get(name) =>
      var cache := Answer(s.storage, limit, s.cache, name).1;
      var loaded := name != "" && Lookup(s.cache, name).None? && Load(s.storage, name) != [];
      s.(cache := cache, stamps := if loaded then s.stamps[name := |s.storage.db|] else s.stamps)
  }

  function Run(sha1: bytes -> string, limit: nat, ops: seq<Op>): (s: State)
    ensures Sound(s.storage)
  {
    if ops == [] then EMPTY else Step(sha1, limit, Run(sha1, limit, ops[..|ops| - 1]), ops[|ops| - 1])
  }

  /** What the run means: each name with the payload it was first stored with, in that order. */
  function Directory(ops: seq<Op>): (r: seq<Pair>) {
    if ops == [] then []
    else
      var before := Directory(ops[..|ops| - 1]);
      match ops[|ops| - 1]
      case Get(_) => before
      case Put(name, data) => if name == "" || Listed(before, name) then before else before + [Pair(name, data)]
  }

  predicate Listed(pairs: seq<Pair>, name: string) {
    exists i :: 0 <= i < |pairs| && pairs[i].name == name
  }

  predicate CollisionFree(sha1: bytes -> string, pairs: seq<Pair>) {
    forall i, j :: 0 <= i < |pairs| && 0 <= j < |pairs| && sha1(pairs[i].data) == sha1(pairs[j].data) ==> pairs[i].data == pairs[j].data
  }

  // The cache is a bounded dictionary

  lemma FindKey(cache: seq<Cached>, i: nat)
    requires UniqueKeys(cache) && i < |cache|
    ensures Find(cache, cache[i].key) == i
  {
    hide Find;
  }

  /** With unique keys a look-up finds the entry of the key, wherever it is. */
  lemma LookupIff(cache: seq<Cached>, key: string, value: seq<Pair>)
    requires UniqueKeys(cache)
    ensures Lookup(cache, key) == Some(value) <==> Cached(key, value) in cache
  {
    hide Find;
    if Cached(key, value) in cache {
      var i :| 0 <= i < |cache| && cache[i] == Cached(key, value);
      FindKey(cache, i);
    }
  }

  lemma LookupNone(cache: seq<Cached>, key: string)
    ensures Lookup(cache, key).None? <==> forall c :: c in cache ==> c.key != key
  {
    hide Find;
    if Lookup(cache, key).None? {
      forall c | c in cache ensures c.key != key {
        var i :| 0 <= i < |cache| && cache[i] == c;
      }
    } else {
      assert cache[Find(cache, key)] in cache;
    }
  }

  lemma SameLookup(a: seq<Cached>, b: seq<Cached>, key: string)
    requires UniqueKeys(a) && UniqueKeys(b) && forall c: Cached :: c.key == key ==> (c in a <==> c in b)
    ensures Lookup(a, key) == Lookup(b, key)
  {
    LookupNone(a, key);
    LookupNone(b, key);
    hide Lookup;
    if Lookup(a, key).Some? {
      LookupIff(a, key, Lookup(a, key).value);
      LookupIff(b, key, Lookup(a, key).value);
    }
  }

  /** The key that has to go when a new one is stored. */
  predicate Evicted(limit: nat, cache: seq<Cached>, key: string, k: string) {
    Lookup(cache, key).None? && |cache| >= limit && cache != [] && cache[0].key == k
  }

  lemma CachePutEntries(limit: nat, cache: seq<Cached>, key: string, value: seq<Pair>)
    requires UniqueKeys(cache)
    ensures var r := CachePut(limit, cache, key, value);
            && UniqueKeys(r) && Cached(key, value) in r
            && forall c: Cached :: c.key != key ==> (c in r <==> c in cache && !Evicted(limit, cache, key, c.key))
  {
    hide Find;
    var r := CachePut(limit, cache, key, value);
    var i := Find(cache, key);
    if i < |cache| {
      assert r[i] == Cached(key, value);
      forall c: Cached | c.key != key ensures c in r <==> c in cache {
        if c in cache {
          var j :| 0 <= j < |cache| && cache[j] == c;
          assert r[j] == c;
        }
        if c in r {
          var j :| 0 <= j < |r| && r[j] == c;
          assert cache[j] == c;
        }
      }
    } else {
      assert r[|r| - 1] == Cached(key, value);
      var kept := if |cache| >= limit && cache != [] then cache[1..] else cache;
      assert r == kept + [Cached(key, value)];
      forall c: Cached | c.key != key ensures c in kept <==> c in cache && !Evicted(limit, cache, key, c.key) {
        KeptEntries(limit, cache, c);
      }
    }
  }

  lemma KeptEntries(limit: nat, cache: seq<Cached>, c: Cached)
    requires UniqueKeys(cache)
    ensures var full := |cache| >= limit && cache != [];
            c in (if full then cache[1..] else cache) <==> c in cache && !(full && cache[0].key == c.key)
  {
    if |cache| >= limit && cache != [] && c in cache {
      var j :| 0 <= j < |cache| && cache[j] == c;
      if j > 0 {
        assert cache[1..][j - 1] == c;
      }
    }
  }

  /** Storing makes the key's value the new one and keeps every other, but for the oldest where there is no room. */
  lemma CachePutLookup(limit: nat, cache: seq<Cached>, key: string, value: seq<Pair>, k: string)
    requires UniqueKeys(cache)
    ensures UniqueKeys(CachePut(limit, cache, key, value))
    ensures Lookup(CachePut(limit, cache, key, value), k)
            == if k == key then Some(value) else if Evicted(limit, cache, key, k) then None else Lookup(cache, k)
  {
    hide CachePut, Lookup;
    CachePutEntries(limit, cache, key, value);
    var r := CachePut(limit, cache, key, value);
    if k == key {
      LookupIff(r, key, value);
    } else if Evicted(limit, cache, key, k) {
      LookupNone(r, k);
    } else {
      SameLookup(r, cache, k);
    }
  }

  /** Invalidating forgets the key and nothing else. */
  lemma InvalidateLookup(cache: seq<Cached>, key: string, k: string)
    requires UniqueKeys(cache)
    ensures UniqueKeys(Invalidate(cache, key))
    ensures Lookup(Invalidate(cache, key), k) == if k == key then None else Lookup(cache, k)
  {
    var r := Invalidate(cache, key);
    InvalidateEntries(cache, key);
    hide Invalidate, Lookup;
    if k == key {
      LookupNone(r, k);
    } else {
      SameLookup(r, cache, k);
    }
  }

  lemma InvalidateEntries(cache: seq<Cached>, key: string)
    requires UniqueKeys(cache)
    ensures UniqueKeys(Invalidate(cache, key))
    ensures forall c :: c in Invalidate(cache, key) <==> c in cache && c.key != key
  {
    hide Find;
    var r := Invalidate(cache, key);
    var i := Find(cache, key);
    if i < |cache| {
      forall c | c in cache && c.key != key ensures c in r {
        var j :| 0 <= j < |cache| && cache[j] == c;
        assert r[if j < i then j else j - 1] == c;
      }
    } else {
      forall c | c in cache ensures c.key != key {
        var j :| 0 <= j < |cache| && cache[j] == c;
      }
    }
  }

  function Matches(pairs: seq<Pair>, key: string): (keep: seq<bool>)
    ensures |keep| == |pairs|
  {
    seq(|pairs|, i requires 0 <= i < |pairs| => key <= pairs[i].name)
  }

  lemma {:induction false} WithPrefixKeeps(pairs: seq<Pair>, key: string)
    ensures WithPrefix(pairs, key) == Kept(pairs, Matches(pairs, key))
  {
    if pairs != [] {
      var n := |pairs| - 1;
      WithPrefixKeeps(pairs[..n], key);
      assert Matches(pairs, key)[..n] == Matches(pairs[..n], key);
    }
  }

  /** Loading gives exactly the pairs whose names start with the key, in the order in which they were stored. */
  lemma LoadPicks(st: Storage, key: string) returns (idx: seq<nat>)
    requires Sound(st)
    ensures Picks(Load(st, key), Pairs(st), idx)
    ensures forall i :: 0 <= i < |st.db| ==> (i in idx <==> key <= st.db[i].name)
  {
    hide WithPrefix, Kept, Picks;
    WithPrefixKeeps(Pairs(st), key);
    idx := KeptPicks(Pairs(st), Matches(Pairs(st), key));
  }

  // Storage is the directory

  /** Names and digests are those of the directory, and every blob is the data of some name with its digest. */
  ghost predicate Mirrors(sha1: bytes -> string, st: Storage, dir: seq<Pair>) {
    && |st.db| == |dir|
    && (forall i :: 0 <= i < |dir| ==> st.db[i] == Entry(dir[i].name, sha1(dir[i].data)))
    && (forall f :: f in st.blobs ==> exists i :: 0 <= i < |dir| && sha1(dir[i].data) == f && st.blobs[f] == dir[i].data)
  }

  lemma TakenIffListed(sha1: bytes -> string, st: Storage, dir: seq<Pair>, name: string)
    requires Mirrors(sha1, st, dir)
    ensures Taken(st.db, name) <==> Listed(dir, name)
  {
    if Taken(st.db, name) {
      var i :| 0 <= i < |st.db| && st.db[i].name == name;
      assert dir[i].name == name;
    }
    if Listed(dir, name) {
      var i :| 0 <= i < |dir| && dir[i].name == name;
      assert st.db[i].name == name;
    }
  }

  lemma StoreMirrors(sha1: bytes -> string, st: Storage, dir: seq<Pair>, name: string, data: bytes)
    requires Sound(st) && Mirrors(sha1, st, dir) && !Taken(st.db, name)
    ensures Mirrors(sha1, Store(sha1, st, name, data), dir + [Pair(name, data)])
  {
    var t := Store(sha1, st, name, data);
    var more := dir + [Pair(name, data)];
    forall f | f in t.blobs ensures exists i :: 0 <= i < |more| && sha1(more[i].data) == f && t.blobs[f] == more[i].data {
      if f in st.blobs {
        var i :| 0 <= i < |dir| && sha1(dir[i].data) == f && st.blobs[f] == dir[i].data;
        assert more[i] == dir[i];
      } else {
        assert more[|dir|] == Pair(name, data);
      }
    }
  }

  lemma {:induction false} RunMirrors(sha1: bytes -> string, limit: nat, ops: seq<Op>)
    ensures Mirrors(sha1, Run(sha1, limit, ops).storage, Directory(ops))
  {
    if ops != [] {
      var n := |ops| - 1;
      RunMirrors(sha1, limit, ops[..n]);
      var s, dir := Run(sha1, limit, ops[..n]), Directory(ops[..n]);
      if ops[n].Put? {
        TakenIffListed(sha1, s.storage, dir, ops[n].name);
        if ops[n].name != "" && !Taken(s.storage.db, ops[n].name) {
          StoreMirrors(sha1, s.storage, dir, ops[n].name, ops[n].data);
        }
      }
    }
  }

  /**
    * After every run the deduplicating storage holds each name with the payload it was first stored
    * with, exactly when no two stored payloads have the same digest.
    */
  lemma StorageIsDirectory(sha1: bytes -> string, limit: nat, ops: seq<Op>)
    ensures Pairs(Run(sha1, limit, ops).storage) == Directory(ops) <==> CollisionFree(sha1, Directory(ops))
  {
    RunMirrors(sha1, limit, ops);
    var st, dir := Run(sha1, limit, ops).storage, Directory(ops);
    hide Run, Directory;
    if CollisionFree(sha1, dir) {
      forall i | 0 <= i < |dir| ensures Pairs(st)[i] == dir[i] {
        var f := st.db[i].file;
        var j :| 0 <= j < |dir| && sha1(dir[j].data) == f && st.blobs[f] == dir[j].data;
      }
      assert Pairs(st) == dir;
    }
    if Pairs(st) == dir {
      forall i, j | 0 <= i < |dir| && 0 <= j < |dir| && sha1(dir[i].data) == sha1(dir[j].data)
        ensures dir[i].data == dir[j].data
      {
        assert Pairs(st)[i].data == st.blobs[sha1(dir[i].data)] && Pairs(st)[j].data == st.blobs[sha1(dir[j].data)];
      }
    }
  }

  // The cache against the storage

  /** A cached value is what the storage held for the key when it was cached, and the key itself was not stored since. */
  predicate EntryFresh(s: State, c: Cached)
    requires Sound(s.storage)
  {
    && c.key in s.stamps && s.stamps[c.key] <= |s.storage.db|
    && c.value == WithPrefix(Pairs(s.storage)[..s.stamps[c.key]], c.key)
    && forall i :: s.stamps[c.key] <= i < |s.storage.db| ==> s.storage.db[i].name != c.key
  }

  predicate CacheInv(s: State, limit: nat)
    requires Sound(s.storage)
  {
    && UniqueKeys(s.cache)
    && (forall i :: 0 <= i < |s.cache| ==> EntryFresh(s, s.cache[i]))
    && |s.cache| <= (if limit == 0 then 1 else limit)
  }

  lemma PutKeepsEntry(sha1: bytes -> string, s: State, name: string, data: bytes, c: Cached, t: State)
    requires Sound(s.storage) && !Taken(s.storage.db, name) && EntryFresh(s, c) && c.key != name
    requires t.storage == Store(sha1, s.storage, name, data) && t.stamps == s.stamps
    ensures EntryFresh(t, c)
  {
    hide WithPrefix;
    assert Pairs(t.storage)[..s.stamps[c.key]] == Pairs(s.storage)[..s.stamps[c.key]];
  }

  lemma PutKeeps(sha1: bytes -> string, limit: nat, s: State, op: Op)
    requires Sound(s.storage) && op.Put? && CacheInv(s, limit)
    ensures CacheInv(Step(sha1, limit, s, op), limit)
  {
    hide EntryFresh, Pairs;
    var t := Step(sha1, limit, s, op);
    if op.name != "" && !Taken(s.storage.db, op.name) {
      var k := Find(s.cache, op.name);
      forall i | 0 <= i < |t.cache| ensures EntryFresh(t, t.cache[i]) {
        var j := if i < k then i else i + 1;
        assert t.cache[i] == s.cache[j];
        PutKeepsEntry(sha1, s, op.name, op.data, s.cache[j], t);
      }
    }
  }

  /** A new key goes last, behind all or all but the first of the entries. */
  lemma CachePutShape(limit: nat, cache: seq<Cached>, key: string, value: seq<Pair>)
    requires Lookup(cache, key).None? && UniqueKeys(cache) && |cache| <= (if limit == 0 then 1 else limit)
    ensures var r := CachePut(limit, cache, key, value);
      && UniqueKeys(r) && |r| <= (if limit == 0 then 1 else limit)
      && forall c :: c in r ==> c == Cached(key, value) || (c in cache && c.key != key)
  {
    hide Find;
  }

  lemma GetKeepsEntry(s: State, name: string, c: Cached, t: State)
    requires Sound(s.storage) && t.storage == s.storage && t.stamps == s.stamps[name := |s.storage.db|]
    requires c == Cached(name, Load(s.storage, name)) || (EntryFresh(s, c) && c.key != name)
    ensures EntryFresh(t, c)
  {
    hide WithPrefix;
    assert Pairs(s.storage)[..|s.storage.db|] == Pairs(s.storage);
  }

  lemma GetKeeps(sha1: bytes -> string, limit: nat, s: State, op: Op)
    requires Sound(s.storage) && op.Get? && CacheInv(s, limit)
    ensures CacheInv(Step(sha1, limit, s, op), limit)
  {
    hide EntryFresh, Lookup, Load, CachePut, UniqueKeys;
    var t := Step(sha1, limit, s, op);
    var found := Load(s.storage, op.name);
    if op.name != "" && Lookup(s.cache, op.name).None? && found != [] {
      CachePutShape(limit, s.cache, op.name, found);
      forall i | 0 <= i < |t.cache| ensures EntryFresh(t, t.cache[i]) {
        assert t.cache[i] in t.cache;
        GetKeepsEntry(s, op.name, t.cache[i], t);
      }
    } else {
      assert t == s;
    }
  }

  lemma {:induction false} RunKeeps(sha1: bytes -> string, limit: nat, ops: seq<Op>)
    ensures CacheInv(Run(sha1, limit, ops), limit)
  {
    if ops != [] {
      var n := |ops| - 1;
      RunKeeps(sha1, limit, ops[..n]);
      if ops[n].Put? {
        PutKeeps(sha1, limit, Run(sha1, limit, ops[..n]), ops[n]);
      } else {
        GetKeeps(sha1, limit, Run(sha1, limit, ops[..n]), ops[n]);
      }
    }
  }

  /** Over every run the cache stays within its limit, or within one entry for a limit of 0. */
  lemma CacheStaysBounded(sha1: bytes -> string, limit: nat, ops: seq<Op>)
    ensures |Run(sha1, limit, ops).cache| <= if limit == 0 then 1 else limit
  {
    hide Run;
    RunKeeps(sha1, limit, ops);
  }

  lemma RunAppend(sha1: bytes -> string, limit: nat, ops: seq<Op>, op: Op)
    ensures Run(sha1, limit, ops + [op]) == Step(sha1, limit, Run(sha1, limit, ops), op)
  {
    hide Step;
    assert (ops + [op])[..|ops|] == ops;
  }

  function OneName(sha1: bytes -> string, name: string, data: bytes): (st: Storage)
    ensures Sound(st)
  {
    Storage([Entry(name, sha1(data))], map[sha1(data) := data])
  }

  lemma FirstPut(sha1: bytes -> string, limit: nat, name: string, data: bytes)
    requires name != ""
    ensures Run(sha1, limit, [Put(name, data)]) == State(OneName(sha1, name, data), [], map[])
  {
    hide WithPrefix, Load;
    RunAppend(sha1, limit, [], Put(name, data));
    assert [] + [Put(name, data)] == [Put(name, data)];
  }

  lemma FirstGet(sha1: bytes -> string, limit: nat, name: string, data: bytes)
    requires name != ""
    ensures Step(sha1, limit, State(OneName(sha1, name, data), [], map[]), Get(name))
            == State(OneName(sha1, name, data), [Cached(name, [Pair(name, data)])], map[name := 1])
  {
    hide WithPrefix, Load;
    OneMatch(OneName(sha1, name, data), name, data);
  }

  /** A first PUT and a GET of the same name. */
  lemma PutThenGet(sha1: bytes -> string, limit: nat, name: string, data: bytes)
    requires name != ""
    ensures Run(sha1, limit, [Put(name, data), Get(name)])
            == State(OneName(sha1, name, data), [Cached(name, [Pair(name, data)])], map[name := 1])
  {
    hide Run, Step, OneName;
    FirstPut(sha1, limit, name, data);
    RunAppend(sha1, limit, [Put(name, data)], Get(name));
    assert [Put(name, data)] + [Get(name)] == [Put(name, data), Get(name)];
    FirstGet(sha1, limit, name, data);
  }

  lemma OneMatch(st: Storage, name: string, data: bytes)
    requires Sound(st) && Pairs(st) == [Pair(name, data)]
    ensures Load(st, name) == [Pair(name, data)]
  {
    var all := [Pair(name, data)];
    assert all[..0] == [] && name <= all[0].name;
    assert WithPrefix(all, name) == WithPrefix(all[..0], name) + [all[0]];
  }

  /** The limit holds over all runs exactly if it is not 0. */
  lemma LimitHoldsIffPositive(sha1: bytes -> string, limit: nat)
    ensures (forall ops :: |Run(sha1, limit, ops).cache| <= limit) <==> limit >= 1
  {
    hide Run;
    forall ops ensures |Run(sha1, limit, ops).cache| <= if limit == 0 then 1 else limit {
      CacheStaysBounded(sha1, limit, ops);
    }
    PutThenGet(sha1, limit, "a", []);
    assert |Run(sha1, limit, [Put("a", []), Get("a")]).cache| == 1;
  }

  lemma {:induction false} WithPrefixConcat(a: seq<Pair>, b: seq<Pair>, key: string)
    ensures WithPrefix(a + b, key) == WithPrefix(a, key) + WithPrefix(b, key)
    decreases |b|
  {
    if b == [] {
      assert a + b == a;
    } else {
      var k := |b| - 1;
      assert (a + b)[..|a + b| - 1] == a + b[..k];
      WithPrefixConcat(a, b[..k], key);
    }
  }

  /** Filtering the first `n` pairs gives a prefix, and all of it when no later name matches. */
  lemma PrefixOfFilter(pairs: seq<Pair>, n: nat, key: string)
    requires n <= |pairs|
    ensures WithPrefix(pairs[..n], key) <= WithPrefix(pairs, key)
    ensures WithPrefix(pairs[..n], key) == WithPrefix(pairs, key) <==> forall i :: n <= i < |pairs| ==> !(key <= pairs[i].name)
  {
    var late := pairs[n..];
    assert pairs == pairs[..n] + late;
    WithPrefixConcat(pairs[..n], late, key);
    var more := WithPrefix(late, key);
    hide WithPrefix;
    if more != [] {
      assert more[0] in more;
      var i :| 0 <= i < |late| && late[i] == more[0];
      assert pairs[n + i] == more[0];
    } else {
      forall i | n <= i < |pairs| ensures !(key <= pairs[i].name) {
        assert late[i - n] in late;
        assert late[i - n] !in more;
      }
    }
  }

  /** A name stored after `key` was last cached that `key` is a proper prefix of. */
  predicate LongerStoredSince(s: State, key: string)
  {
    key in s.stamps && exists i :: 0 <= i < |s.storage.db| && s.stamps[key] <= i && key < s.storage.db[i].name
  }

  lemma HitAnswer(s: State, c: Cached)
    requires Sound(s.storage) && EntryFresh(s, c)
    ensures c.value <= Load(s.storage, c.key)
    ensures c.value == Load(s.storage, c.key) <==> !LongerStoredSince(s, c.key)
  {
    var n := s.stamps[c.key];
    PrefixOfFilter(Pairs(s.storage), n, c.key);
    hide WithPrefix;
    forall i | n <= i < |s.storage.db| ensures c.key <= Pairs(s.storage)[i].name <==> c.key < s.storage.db[i].name {
      assert s.storage.db[i].name != c.key;
    }
  }

  /**
    * Over every run, a GET answers with an insertion-order prefix of what the storage itself would
    * give; with the whole of it exactly unless the key is cached and a longer matching name was
    * stored since.
    */
  lemma CachedAnswer(sha1: bytes -> string, limit: nat, ops: seq<Op>, key: string)
    requires key != ""
    ensures var s := Run(sha1, limit, ops);
            var answer := Answer(s.storage, limit, s.cache, key).0;
            && answer <= Load(s.storage, key)
            && (answer == Load(s.storage, key) <==> !(Lookup(s.cache, key).Some? && LongerStoredSince(s, key)))
  {
    RunKeeps(sha1, limit, ops);
    var s := Run(sha1, limit, ops);
    hide Run, EntryFresh, LongerStoredSince, Load;
    var i := Find(s.cache, key);
    if i < |s.cache| {
      HitAnswer(s, s.cache[i]);
    }
  }

  /** A run after which an answer from the cache misses a longer name. */
  lemma StaleAnswer(sha1: bytes -> string, limit: nat, x: bytes, y: bytes)
    ensures var s := Run(sha1, limit, [Put("a", x), Get("a"), Put("ab", y)]);
            && Lookup(s.cache, "a").Some? && LongerStoredSince(s, "a")
            && Answer(s.storage, limit, s.cache, "a").0 < Load(s.storage, "a")
  {
    hide Run, Load;
    var ops := [Put("a", x), Get("a"), Put("ab", y)];
    PutThenGet(sha1, limit, "a", x);
    RunAppend(sha1, limit, [Put("a", x), Get("a")], Put("ab", y));
    assert [Put("a", x), Get("a")] + [Put("ab", y)] == ops;
    var s := Run(sha1, limit, ops);
    assert s.storage.db == [Entry("a", sha1(x)), Entry("ab", sha1(y))];
    assert "a" <= s.storage.db[1].name;
    assert s.cache == [Cached("a", [Pair("a", x)])] && s.stamps == map["a" := 1];
    CachedAnswer(sha1, limit, ops, "a");
  }

  lemma {:induction false} DirectoryIsFirstPut(ops: seq<Op>, p: Pair)
    ensures p in Directory(ops) <==>
              p.name != "" && exists i :: 0 <= i < |ops| && ops[i] == Put(p.name, p.data)
                                          && forall j :: 0 <= j < i ==> !(ops[j].Put? && ops[j].name == p.name)
    ensures Listed(Directory(ops), p.name) <==> p.name != "" && exists i :: 0 <= i < |ops| && ops[i].Put? && ops[i].name == p.name
  {
    if ops != [] {
      var n := |ops| - 1;
      DirectoryIsFirstPut(ops[..n], p);
      assert forall i :: 0 <= i < n ==> ops[..n][i] == ops[i];
      var before, after := Directory(ops[..n]), Directory(ops);
      if ops[n].Put? && ops[n].name != "" && !Listed(before, ops[n].name) {
        assert after[|before|] == Pair(ops[n].name, ops[n].data);
        assert forall i :: 0 <= i < |before| ==> after[i] == before[i];
      }
    }
  }

  /** Every pair in an answer is a matching name with the payload of the first PUT of that name. */
  lemma AnswersAreFirstPuts(sha1: bytes -> string, limit: nat, ops: seq<Op>, key: string, p: Pair)
    requires key != "" && CollisionFree(sha1, Directory(ops))
    requires var s := Run(sha1, limit, ops); p in Answer(s.storage, limit, s.cache, key).0
    ensures key <= p.name
    ensures exists i :: 0 <= i < |ops| && ops[i] == Put(p.name, p.data)
                        && forall j :: 0 <= j < i ==> !(ops[j].Put? && ops[j].name == p.name)
  {
    var s := Run(sha1, limit, ops);
    CachedAnswer(sha1, limit, ops, key);
    StorageIsDirectory(sha1, limit, ops);
    DirectoryIsFirstPut(ops, p);
    var answer := Answer(s.storage, limit, s.cache, key).0;
    hide Run, Directory, Answer;
    var i :| 0 <= i < |answer| && answer[i] == p;
    assert Load(s.storage, key)[i] == p;
    assert p in Load(s.storage, key);
  }
}
