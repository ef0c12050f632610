/** The disk cache as values (pkg/platformloader/disk_cache.go): what each operation does to the
    recency list, the content files and the metadata file. Time is an integer; every operation is
    given the clock reading it uses. */
module CacheModel {
  import opened Common

  newtype Byte = b: int | 0 <= b < 256
  type Bytes = seq<Byte>

  /** Durations in nanoseconds. */
  const DEFAULT_TTL: int := 24 * 3600 * 1_000_000_000

  datatype Entry = Entry(key: string, digest: string, size: nat, createdAt: int, accessedAt: int)

  /** `list` is the recency list, most recent first; `files` the content files by name; `saved` the
      metadata file. */
  datatype Cache = Cache(maxEntries: int, ttl: int, list: seq<Entry>, files: map<string, Bytes>,
                         saved: Option<seq<Entry>>)

  // ---- file names ----

  predicate SafeChar(ch: char) {
    'a' <= ch <= 'z' || 'A' <= ch <= 'Z' || '0' <= ch <= '9' || ch == '-' || ch == '_' || ch == '.'
  }

  function SanitizeKey(key: string): string {
    if key == "" then "" else SanitizeKey(key[..|key| - 1]) + [if SafeChar(key[|key| - 1]) then key[|key| - 1] else '_']
  }

  function ContentPath(key: string): string {
    SanitizeKey(key) + ".cue"
  }

  /** `sanitizeKey`'s loop. */
  method Sanitize(key: string) returns (safe: string)
    ensures safe == SanitizeKey(key)
    ensures |safe| == |key|
    ensures forall i :: 0 <= i < |key| ==>
              safe[i] == if || 'a' <= key[i] <= 'z' || 'A' <= key[i] <= 'Z' || '0' <= key[i] <= '9'
                            || key[i] == '-' || key[i] == '_' || key[i] == '.' then key[i] else '_'
  {
    safe := "";
    for k := 0 to |key|
      invariant safe == SanitizeKey(key[..k]) && |safe| == k
      invariant forall i :: 0 <= i < k ==> safe[i] == if SafeChar(key[i]) then key[i] else '_'
    {
      assert key[..k + 1][..k] == key[..k];
      if SafeChar(key[k]) {
        safe := safe + [key[k]];
      } else {
        safe := safe + "_";
      }
    }
    assert key[..|key|] == key;
  }

  // ---- the recency list ----

  predicate Holds(list: seq<Entry>, key: string) {
    exists i :: 0 <= i < |list| && list[i].key == key
  }

  function Without(list: seq<Entry>, key: string): seq<Entry> {
    if list == [] then []
    else (if list[0].key == key then [] else [list[0]]) + Without(list[1..], key)
  }

  function Find(list: seq<Entry>, key: string): Entry
    requires Holds(list, key)
  {
    if list[0].key == key then list[0] else Find(list[1..], key)
  }

  // ---- operations ----

  function Removed(c: Cache, key: string): Cache {
    if Holds(c.list, key) then c.(list := Without(c.list, key), files := c.files - {ContentPath(key)}) else c
  }

  /** One round of the eviction loop. With an empty list there is nothing to remove. */
  function BackRemoved(c: Cache): Cache {
    if c.list == [] then c else Removed(c, c.list[|c.list| - 1].key)
  }

  function EvictRounds(c: Cache, n: nat): Cache
    decreases n
  {
    if n == 0 then c else EvictRounds(BackRemoved(c), n - 1)
  }

  /** The eviction loop of `Set`: drop the back of the list until there is room. */
  function Evicted(c: Cache): (r: Cache)
    requires c.maxEntries >= 1
    ensures |r.list| < c.maxEntries
    ensures r.maxEntries == c.maxEntries && r.ttl == c.ttl && r.saved == c.saved
    decreases |c.list|
  {
    if |c.list| < c.maxEntries then c
    else
      WithoutShrinks(c.list, c.list[|c.list| - 1].key);
      Evicted(BackRemoved(c))
  }

  lemma {:induction false} WithoutShrinks(list: seq<Entry>, key: string)
    ensures |Without(list, key)| <= |list|
    ensures Holds(list, key) ==> |Without(list, key)| < |list|
  {
    if list != [] {
      WithoutShrinks(list[1..], key);
      if Holds(list, key) && list[0].key != key {
        var i :| 0 <= i < |list| && list[i].key == key;
        assert list[1..][i - 1].key == key;
      }
    }
  }

  lemma EvictUnfolds(c: Cache)
    requires |c.list| >= c.maxEntries >= 1
    ensures Evicted(c) == Evicted(BackRemoved(c))
  {
  }

  lemma {:induction false} EvictionEnds(c: Cache) returns (n: nat)
    requires c.maxEntries >= 1
    ensures EvictRounds(c, n) == Evicted(c)
    decreases |c.list|
  {
    n := 0;
    if |c.list| >= c.maxEntries {
      WithoutShrinks(c.list, c.list[|c.list| - 1].key);
      var m := EvictionEnds(BackRemoved(c));
      n := m + 1;
    }
  }

  lemma {:induction false} CapacityStays(c: Cache, n: nat)
    ensures EvictRounds(c, n).maxEntries == c.maxEntries
    decreases n
  {
    if n > 0 {
      CapacityStays(BackRemoved(c), n - 1);
    }
  }

  /** The eviction loop, which goes on while the list is not below the capacity, ends if and only if the
      capacity is at least one. */
  lemma EvictionEndsIff(c: Cache)
    ensures (exists n: nat :: |EvictRounds(c, n).list| < EvictRounds(c, n).maxEntries) <==> c.maxEntries >= 1
  {
    if c.maxEntries >= 1 {
      var n := EvictionEnds(c);
      assert |EvictRounds(c, n).list| < EvictRounds(c, n).maxEntries;
    } else {
      forall n: nat ensures |EvictRounds(c, n).list| >= EvictRounds(c, n).maxEntries {
        CapacityStays(c, n);
      }
    }
  }

  predicate Expired(c: Cache, e: Entry, now: int) {
    now - e.createdAt > c.ttl
  }

  function Got(c: Cache, key: string, now: int): (Cache, Option<Bytes>) {
    if !Holds(c.list, key) then (c, None)
    else if Expired(c, Find(c.list, key), now) || ContentPath(key) !in c.files then (Removed(c, key), None)
    else (c.(list := [Find(c.list, key).(accessedAt := now)] + Without(c.list, key)), Some(c.files[ContentPath(key)]))
  }

  /** The first half of `Set`: the entry is in front. A new key needs `maxEntries >= 1`, without which
      the eviction loop does not end. */
  function Placed(c: Cache, key: string, size: nat, now: int): Cache
    requires Holds(c.list, key) || c.maxEntries >= 1
  {
    if Holds(c.list, key) then
      c.(list := [Find(c.list, key).(accessedAt := now, size := size)] + Without(c.list, key))
    else
      var room := Evicted(c);
      room.(list := [Entry(key, key, size, now, now)] + room.list)
  }

  /** The second half of `Set`; `written` and `saved` say whether the content file and the metadata file
      could be written. */
  function ContentWritten(c: Cache, key: string, content: Bytes, written: bool, saved: bool): Cache {
    if written then Saved(c.(files := c.files[ContentPath(key) := content]), saved) else Removed(c, key)
  }

  function AfterSet(c: Cache, key: string, content: Bytes, now: int, written: bool, saved: bool): Cache
    requires Holds(c.list, key) || c.maxEntries >= 1
  {
    ContentWritten(Placed(c, key, |content|, now), key, content, written, saved)
  }

  function Saved(c: Cache, ok: bool): Cache {
    if ok then c.(saved := Some(c.list)) else c
  }

  function AfterDelete(c: Cache, key: string, saved: bool): Cache {
    Saved(Removed(c, key), saved)
  }

  /** Every file of the cache directory goes, the metadata file included; but when the directory cannot
      be listed nothing happens. */
  function AfterClear(c: Cache, listed: bool): Cache {
    if listed then c.(list := [], files := map[], saved := None) else c
  }

  function WithoutAll(list: seq<Entry>, keys: set<string>): seq<Entry> {
    if list == [] then []
    else (if list[0].key in keys then [] else [list[0]]) + WithoutAll(list[1..], keys)
  }

  function ExpiredKeys(c: Cache, now: int): set<string> {
    set i | 0 <= i < |c.list| && Expired(c, c.list[i], now) :: c.list[i].key
  }

  /** The file names of several keys. */
  function Images(path: string -> string, keys: set<string>): set<string> {
    set k | k in keys :: path(k)
  }

  /** Removes several keys and their files. */
  function RemovedAll(c: Cache, keys: set<string>): Cache {
    c.(list := WithoutAll(c.list, keys), files := c.files - Images(ContentPath, keys))
  }

  function AfterPrune(c: Cache, now: int, saved: bool): Cache {
    var gone := ExpiredKeys(c, now);
    if gone == {} then c else Saved(RemovedAll(c, gone), saved)
  }

  // ---- reloading ----

  /** Loading happens before a custom time to live is configured, so the default one decides. */
  predicate TooOld(e: Entry, now: int) {
    now - e.createdAt > DEFAULT_TTL
  }

  /** One round of `loadMetadata`: a stale file is removed, an entry without a file is skipped, and any
      other goes to the front. */
  function LoadOne(path: string -> string, e: Entry, state: (seq<Entry>, map<string, Bytes>), now: int)
    : (seq<Entry>, map<string, Bytes>)
  {
    var (list, files) := state;
    if TooOld(e, now) then (list, files - {path(e.key)})
    else if path(e.key) !in files then (list, files)
    else ([e] + list, files)
  }

  /** `loadMetadata`: entries are taken from the last to the first. */
  function Load(path: string -> string, entries: seq<Entry>, files: map<string, Bytes>, now: int)
    : (seq<Entry>, map<string, Bytes>)
  {
    if entries == [] then ([], files)
    else LoadOne(path, entries[0], Load(path, entries[1..], files, now), now)
  }

  /** `NewDiskCacheWithConfig` over an existing directory. */
  function Reopened(disk: Cache, maxEntries: int, ttl: int, now: int): Cache {
    match disk.saved
    case None => disk.(maxEntries := maxEntries, ttl := ttl, list := [])
    case Some(entries) =>
      var (list, files) := Load(ContentPath, entries, disk.files, now);
      disk.(maxEntries := maxEntries, ttl := ttl, list := list, files := files)
  }

  // ---- traces ----

  datatype Op =
    | Get(key: string, now: int)
    | Set(key: string, content: Bytes, now: int, written: bool, saved: bool)
    | Delete(key: string, saved: bool)
    | Prune(now: int, saved: bool)
    | Clear(listed: bool)

  function Do(c: Cache, op: Op): (r: (Cache, Option<Bytes>))
    requires c.maxEntries >= 1
    ensures r.0.maxEntries == c.maxEntries && r.0.ttl == c.ttl
  {
    match op
    case Get(key, now) => Got(c, key, now)
    case Set(key, content, now, written, saved) => (AfterSet(c, key, content, now, written, saved), None)
    case Delete(key, saved) => (AfterDelete(c, key, saved), None)
    case Prune(now, saved) => (AfterPrune(c, now, saved), None)
    case Clear(listed) => (AfterClear(c, listed), None)
  }

  function Empty(maxEntries: int, ttl: int): Cache {
    Cache(maxEntries, ttl, [], map[], None)
  }
}

/** Facts about recency lists. */
module CacheLists {
  import opened CacheModel

  // ---- removing a key from a list without repeated keys ----

  ghost predicate DistinctKeys(list: seq<Entry>) {
    forall i, j :: 0 <= i < j < |list| ==> list[i].key != list[j].key
  }

  lemma {:induction false} WithoutAbsent(list: seq<Entry>, key: string)
    requires !Holds(list, key)
    ensures Without(list, key) == list
  {
    if list != [] {
      assert forall i :: 0 <= i < |list[1..]| ==> list[1..][i].key == list[i + 1].key;
      WithoutAbsent(list[1..], key);
    }
  }

  lemma {:induction false} WithoutAt(list: seq<Entry>, key: string, p: nat)
    requires DistinctKeys(list) && p < |list| && list[p].key == key
    ensures Without(list, key) == list[..p] + list[p + 1..]
    ensures Holds(list, key) && Find(list, key) == list[p]
  {
    if p == 0 {
      assert !Holds(list[1..], key);
      WithoutAbsent(list[1..], key);
    } else {
      assert list[1..][p - 1].key == key;
      WithoutAt(list[1..], key, p - 1);
      assert list[..p] == [list[0]] + list[1..][..p - 1];
      assert list[p + 1..] == list[1..][p..];
    }
  }

  lemma Position(list: seq<Entry>, key: string) returns (p: nat)
    requires Holds(list, key)
    ensures p < |list| && list[p].key == key
  {
    p :| 0 <= p < |list| && list[p].key == key;
  }

  // ---- removing several keys ----

  lemma {:induction false} WithoutAllStep(list: seq<Entry>, keys: set<string>, k: string)
    ensures WithoutAll(list, keys + {k}) == Without(WithoutAll(list, keys), k)
  {
    if list != [] {
      WithoutAllStep(list[1..], keys, k);
      var head, tail := if list[0].key in keys then [] else [list[0]], WithoutAll(list[1..], keys);
      WithoutConcat(head, tail, k);
    }
  }

  lemma {:induction false} WithoutConcat(a: seq<Entry>, b: seq<Entry>, k: string)
    ensures Without(a + b, k) == Without(a, k) + Without(b, k)
  {
    if a == [] {
      assert a + b == b;
    } else {
      assert (a + b)[1..] == a[1..] + b;
      WithoutConcat(a[1..], b, k);
    }
  }

  lemma {:induction false} WithoutAllShrinks(list: seq<Entry>, keys: set<string>)
    ensures |WithoutAll(list, keys)| <= |list|
  {
    if list != [] {
      WithoutAllShrinks(list[1..], keys);
    }
  }

  lemma {:induction false} WithoutNone(list: seq<Entry>)
    ensures WithoutAll(list, {}) == list
  {
    if list != [] {
      WithoutNone(list[1..]);
    }
  }

  // ---- which keys a list holds ----

  lemma HoldsCons(e: Entry, list: seq<Entry>, k: string)
    ensures Holds([e] + list, k) <==> e.key == k || Holds(list, k)
  {
    if e.key == k {
      assert ([e] + list)[0].key == k;
    }
    if Holds(list, k) {
      var i := Position(list, k);
      assert ([e] + list)[i + 1].key == k;
    }
  }

  lemma {:induction false} WithoutAllHolds(list: seq<Entry>, gone: set<string>, k: string)
    ensures Holds(WithoutAll(list, gone), k) <==> Holds(list, k) && k !in gone
  {
    if list != [] {
      WithoutAllHolds(list[1..], gone, k);
      HoldsCons(list[0], list[1..], k);
      HoldsCons(list[0], WithoutAll(list[1..], gone), k);
      assert [list[0]] + list[1..] == list;
      assert [] + WithoutAll(list[1..], gone) == WithoutAll(list[1..], gone);
    }
  }

  lemma WithoutHolds(list: seq<Entry>, key: string, k: string)
    ensures Holds(Without(list, key), k) <==> Holds(list, k) && k != key
  {
    WithoutAllHolds(list, {key}, k);
    WithoutAllStep(list, {}, key);
    WithoutNone(list);
    assert {} + {key} == {key};
  }

  lemma {:induction false} FindKey(list: seq<Entry>, key: string)
    requires Holds(list, key)
    ensures Find(list, key).key == key && Find(list, key) in list
  {
    if list[0].key != key {
      var i := Position(list, key);
      assert list[1..][i - 1].key == key;
      FindKey(list[1..], key);
    }
  }

  // ---- lists without repeated keys ----

  lemma ConsDistinct(e: Entry, list: seq<Entry>)
    requires DistinctKeys(list) && !Holds(list, e.key)
    ensures DistinctKeys([e] + list)
  {
  }

  lemma {:induction false} WithoutAllDistinct(list: seq<Entry>, gone: set<string>)
    requires DistinctKeys(list)
    ensures DistinctKeys(WithoutAll(list, gone))
  {
    if list != [] {
      WithoutAllDistinct(list[1..], gone);
      assert !Holds(list[1..], list[0].key);
      WithoutAllHolds(list[1..], gone, list[0].key);
      ConsDistinct(list[0], WithoutAll(list[1..], gone));
      assert [] + WithoutAll(list[1..], gone) == WithoutAll(list[1..], gone);
    }
  }

  lemma WithoutDistinct(list: seq<Entry>, key: string)
    requires DistinctKeys(list)
    ensures DistinctKeys(Without(list, key)) && !Holds(Without(list, key), key)
  {
    WithoutAllDistinct(list, {key});
    WithoutAllStep(list, {}, key);
    WithoutNone(list);
    assert {} + {key} == {key};
    WithoutHolds(list, key, key);
  }
}
