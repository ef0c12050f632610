/** The disk cache as a mutable object (pkg/platformloader/disk_cache.go): a recency list and a key
    map that share entry objects, updated in place. Each method is proved to do to the cache's value
    what the functions of `CacheModel` say. */
module DiskCaches {
  import opened Common
  import opened CacheModel
  import opened CacheLists

  class CacheEntry {
    const key: string
    const digest: string
    const createdAt: int
    var size: nat
    var accessedAt: int

    constructor (key: string, digest: string, size: nat, createdAt: int, accessedAt: int)
      ensures Value() == Entry(key, digest, size, createdAt, accessedAt)
    {
      this.key, this.digest, this.size := key, digest, size;
      this.createdAt, this.accessedAt := createdAt, accessedAt;
    }

    function Value(): Entry
      reads this
    {
      Entry(key, digest, size, createdAt, accessedAt)
    }
  }

  /** The list's content as values. */
  ghost function Values(lru: seq<CacheEntry>): (list: seq<Entry>)
    reads lru
    ensures |list| == |lru| && forall i :: 0 <= i < |lru| ==> list[i] == lru[i].Value()
  {
    seq(|lru|, i requires 0 <= i < |lru| reads lru => lru[i].Value())
  }

  /** List and map are in bijection. */
  ghost predicate Linked(lru: seq<CacheEntry>, entries: map<string, CacheEntry>) {
    && (forall i, j :: 0 <= i < j < |lru| ==> lru[i].key != lru[j].key)
    && (forall i :: 0 <= i < |lru| ==> lru[i].key in entries && entries[lru[i].key] == lru[i])
    && (forall k :: k in entries ==> entries[k] in lru && entries[k].key == k)
  }

  class DiskCache {
    var maxEntries: int
    var ttl: int
    var lru: seq<CacheEntry>
    var entries: map<string, CacheEntry>
    var files: map<string, Bytes>
    var saved: Option<seq<Entry>>

    ghost predicate Valid()
      reads this
    {
      Linked(lru, entries)
    }

    ghost function View(): Cache
      reads this, lru
    {
      Cache(maxEntries, ttl, Values(lru), files, saved)
    }

    constructor (maxEntries: int, ttl: int, files: map<string, Bytes>, saved: Option<seq<Entry>>)
      ensures Valid() && View() == Cache(maxEntries, ttl, [], files, saved) && lru == []
    {
      this.maxEntries, this.ttl, this.lru, this.entries := maxEntries, ttl, [], map[];
      this.files, this.saved := files, saved;
    }

    method RemoveEntry(key: string)
      requires Valid()
      modifies this
      ensures Valid() && View() == Removed(old(View()), key)
      ensures entries == old(entries) - {key}
      ensures |lru| == |old(lru)| - (if key in old(entries) then 1 else 0)
      ensures forall e :: e in lru ==> e in old(lru)
    {
      KeysAgree(lru, entries, key);
      if key in entries {
        var e := entries[key];
        UnlinkValues(lru, e);
        UnlinkKeepsLinked(lru, entries, e);
        lru := Unlink(lru, e);
        entries := entries - {key};
        files := files - {ContentPath(key)};
      }
    }

    /** Marks an element as just used: access time and size are set and it goes to the front. */
    method Touch(e: CacheEntry, size: nat, now: int)
      requires Valid() && e in lru
      modifies this`lru, e
      ensures Valid() && lru == [e] + Unlink(old(lru), e) && e.accessedAt == now && e.size == size
      ensures Values(lru) == [e.Value()] + old(Without(Values(lru), e.key))
    {
      UnlinkValues(lru, e);
      MoveKeepsLinked(lru, entries, e);
      OthersDiffer(lru, e);
      var rest := Unlink(lru, e);
      Stamp(e, size, now, rest);
      ValuesPush(rest, e);
      lru := [e] + rest;
    }

    /** Changes one element, and no other. */
    method Stamp(e: CacheEntry, size: nat, now: int, ghost others: seq<CacheEntry>)
      requires e !in others
      modifies e
      ensures e.accessedAt == now && e.size == size && Values(others) == old(Values(others))
    {
      e.accessedAt, e.size := now, size;
    }

    method Get(key: string, now: int) returns (content: Option<Bytes>)
      requires Valid()
      modifies this, lru
      ensures Valid() && (View(), content) == Got(old(View()), key, now)
    {
      KeysAgree(lru, entries, key);
      if key !in entries {
        return None;
      }
      var e := entries[key];
      UnlinkValues(lru, e);
      if now - e.createdAt > ttl {
        RemoveEntry(key);
        return None;
      }
      if ContentPath(key) !in files {
        RemoveEntry(key);
        return None;
      }
      Touch(e, e.size, now);
      return Some(files[ContentPath(key)]);
    }

    method EvictOldest()
      requires Valid()
      modifies this
      ensures Valid()
      ensures View() == BackRemoved(old(View()))
      ensures old(lru) != [] ==> |lru| < |old(lru)|
      ensures forall e :: e in lru ==> e in old(lru)
    {
      if lru != [] {
        RemoveEntry(lru[|lru| - 1].key);
      }
    }

    /** One round of the eviction loop: the list gets shorter, and what the loop will leave is fixed. */
    method EvictRound()
      requires Valid() && |lru| >= maxEntries >= 1
      modifies this
      ensures Valid() && maxEntries == old(maxEntries) && |lru| < |old(lru)|
      ensures Evicted(View()) == Evicted(old(View()))
      ensures forall e :: e in lru ==> e in old(lru)
    {
      ghost var before := View();
      EvictUnfolds(before);
      EvictOldest();
    }

    /** The eviction loop; it needs a capacity of at least one to end. */
    method Evict()
      requires Valid() && maxEntries >= 1
      modifies this
      ensures Valid() && View() == Evicted(old(View()))
      ensures forall e :: e in lru ==> e in old(lru)
    {
      while |lru| >= maxEntries
        invariant Valid() && maxEntries == old(maxEntries) && Evicted(View()) == Evicted(old(View()))
        invariant forall e :: e in lru ==> e in old(lru)
        decreases |lru|
      {
        EvictRound();
      }
      assert |View().list| == |lru|;
    }

    /** A new element goes to the front of the list and into the map. */
    method PushEntry(e: CacheEntry)
      requires Valid() && e.key !in entries
      modifies this`lru, this`entries
      ensures Valid() && lru == [e] + old(lru) && entries == old(entries)[e.key := e]
      ensures Values(lru) == [e.Value()] + old(Values(lru))
    {
      PushKeepsLinked(lru, entries, e);
      ValuesPush(lru, e);
      lru := [e] + lru;
      entries := entries[e.key := e];
    }

    method AddEntry(key: string, size: nat, now: int)
      requires Valid() && key !in entries && maxEntries >= 1
      modifies this
      ensures Valid() && View() == Placed(old(View()), key, size, now)
    {
      KeysAgree(lru, entries, key);
      EvictedHoldsLess(View(), key);
      Evict();
      KeysAgree(lru, entries, key);
      var e := new CacheEntry(key, key, size, now, now);
      PushEntry(e);
    }

    method SaveMetadata(ok: bool)
      requires Valid()
      modifies this`saved
      ensures Valid() && View() == Saved(old(View()), ok)
    {
      var list: seq<Entry> := [];
      for k := 0 to |lru|
        invariant |list| == k && forall i :: 0 <= i < k ==> list[i] == lru[i].Value()
      {
        list := list + [lru[k].Value()];
      }
      assert list == Values(lru);
      if ok {
        saved := Some(list);
      }
    }

    method PlaceEntry(key: string, size: nat, now: int)
      requires Valid() && (key in entries || maxEntries >= 1)
      modifies this, lru
      ensures Valid() && View() == Placed(old(View()), key, size, now)
    {
      KeysAgree(lru, entries, key);
      if key in entries {
        var e := entries[key];
        UnlinkValues(lru, e);
        Touch(e, size, now);
      } else {
        AddEntry(key, size, now);
      }
    }

    method Set(key: string, content: Bytes, now: int, written: bool, savedOk: bool) returns (ok: bool)
      requires Valid() && (key in entries || maxEntries >= 1)
      modifies this, lru
      ensures Valid() && View() == AfterSet(old(View()), key, content, now, written, savedOk)
      ensures ok == written
    {
      KeysAgree(lru, entries, key);
      PlaceEntry(key, |content|, now);
      WriteContent(key, content, written, savedOk);
      return written;
    }

    /** The second half of `Set`. */
    method WriteContent(key: string, content: Bytes, written: bool, savedOk: bool)
      requires Valid()
      modifies this
      ensures Valid()
      ensures View() == ContentWritten(old(View()), key, content, written, savedOk)
    {
      if !written {
        RemoveEntry(key);
        return;
      }
      files := files[ContentPath(key) := content];
      SaveMetadata(savedOk);
    }

    method Delete(key: string, savedOk: bool)
      requires Valid()
      modifies this
      ensures Valid() && View() == AfterDelete(old(View()), key, savedOk)
    {
      RemoveEntry(key);
      SaveMetadata(savedOk);
    }

    /** The keys of expired entries, found by going over the map in any order. */
    method CollectExpired(now: int) returns (gone: set<string>)
      requires Valid()
      ensures gone == ExpiredKeys(View(), now) && gone <= entries.Keys
    {
      gone := {};
      var todo := entries.Keys;
      while todo != {}
        invariant todo <= entries.Keys
        invariant forall k :: k in gone <==> k in entries && k !in todo && now - entries[k].createdAt > ttl
        decreases todo
      {
        var key :| key in todo;
        if now - entries[key].createdAt > ttl {
          gone := gone + {key};
        }
        todo := todo - {key};
      }
      ExpiredAre(lru, entries, ttl, now, View(), gone);
    }

    method RemoveRound(key: string, ghost c0: Cache, ghost done: set<string>)
      requires Valid() && key in entries && View() == RemovedAll(c0, done)
      modifies this
      ensures Valid() && View() == RemovedAll(c0, done + {key}) && entries == old(entries) - {key}
    {
      KeysAgree(lru, entries, key);
      RemovedOneMore(c0, done, key);
      RemoveEntry(key);
    }

    /** Removes the given keys one by one, in any order. */
    method RemoveEntries(gone: set<string>)
      requires Valid() && gone <= entries.Keys
      modifies this
      ensures Valid() && View() == RemovedAll(old(View()), gone)
    {
      var todo := gone;
      ghost var c0, done := View(), {};
      RemovedNone(c0);
      while todo != {}
        invariant done + todo == gone && todo <= entries.Keys
        invariant Valid() && View() == RemovedAll(c0, done)
        decreases todo
      {
        var key :| key in todo;
        RemoveRound(key, c0, done);
        MoveBetween(done, todo, key);
        done, todo := done + {key}, todo - {key};
      }
    }

    method Prune(now: int, savedOk: bool)
      requires Valid()
      modifies this
      ensures Valid() && View() == AfterPrune(old(View()), now, savedOk)
    {
      var gone := CollectExpired(now);
      if gone != {} {
        RemoveEntries(gone);
        SaveMetadata(savedOk);
      }
    }

    /** `loadMetadata` on a new cache, before a custom time to live is configured. */
    method LoadMetadata(now: int)
      requires lru == [] && entries == map[] && ttl == DEFAULT_TTL
      requires saved.Some? ==> DistinctKeys(saved.value)
      modifies this
      ensures Valid() && View() == Reopened(old(View()), maxEntries, ttl, now)
    {
      if saved.None? {
        return;
      }
      var meta := saved.value;
      var i := |meta|;
      while i > 0
        invariant 0 <= i <= |meta| && Valid() && saved == Some(meta) && ttl == DEFAULT_TTL
        invariant maxEntries == old(maxEntries)
        invariant (Values(lru), files) == Load(ContentPath, meta[i..], old(files), now)
        invariant forall k :: k in entries ==> HoldsFrom(meta, i, k)
      {
        LoadUnfolds(meta, i - 1, old(files), now);
        i := i - 1;
        LoadEntry(meta[i], now);
      }
      assert meta[0..] == meta;
    }

    /** One round of the loading loop. */
    method LoadEntry(entry: Entry, now: int)
      requires Valid() && entry.key !in entries && ttl == DEFAULT_TTL
      modifies this`lru, this`entries, this`files
      ensures Valid()
      ensures (Values(lru), files) == LoadOne(ContentPath, entry, old((Values(lru), files)), now)
      ensures entries.Keys <= old(entries.Keys) + {entry.key}
    {
      if now - entry.createdAt > ttl {
        files := files - {ContentPath(entry.key)};
        return;
      }
      if ContentPath(entry.key) !in files {
        return;
      }
      var e := new CacheEntry(entry.key, entry.digest, entry.size, entry.createdAt, entry.accessedAt);
      PushEntry(e);
    }

    /** `listed` says whether the directory could be listed; if not, an error is returned and nothing
        has changed. */
    method Clear(listed: bool) returns (ok: bool)
      requires Valid()
      modifies this
      ensures Valid() && View() == AfterClear(old(View()), listed) && ok == listed
      ensures listed ==> lru == [] && entries == map[] && files == map[] && saved == None
      ensures !listed ==> lru == old(lru) && entries == old(entries) && files == old(files) && saved == old(saved)
    {
      if !listed {
        return false;
      }
      files, saved := map[], None;
      lru, entries := [], map[];
      return true;
    }
  }

  // ---- taking one element out of the list ----

  /** `list.Remove`. */
  function Unlink(lru: seq<CacheEntry>, e: CacheEntry): seq<CacheEntry> {
    if lru == [] then [] else if lru[0] == e then lru[1..] else [lru[0]] + Unlink(lru[1..], e)
  }

  lemma {:induction false} UnlinkAt(lru: seq<CacheEntry>, e: CacheEntry, p: nat)
    requires p < |lru| && lru[p] == e && forall i :: 0 <= i < p ==> lru[i] != e
    ensures Unlink(lru, e) == lru[..p] + lru[p + 1..]
  {
    if lru[0] != e {
      UnlinkAt(lru[1..], e, p - 1);
    }
  }

  lemma ValuesWithoutAt(lru: seq<CacheEntry>, p: nat)
    requires p < |lru|
    ensures Values(lru[..p] + lru[p + 1..]) == Values(lru)[..p] + Values(lru)[p + 1..]
  {
  }

  lemma Place(lru: seq<CacheEntry>, e: CacheEntry) returns (p: nat)
    requires e in lru && forall i, j :: 0 <= i < j < |lru| ==> lru[i].key != lru[j].key
    ensures p < |lru| && lru[p] == e && Unlink(lru, e) == lru[..p] + lru[p + 1..]
  {
    p :| 0 <= p < |lru| && lru[p] == e;
    UnlinkAt(lru, e, p);
  }

  /** Unlinking an element takes its key out of the list of values. */
  lemma UnlinkValues(lru: seq<CacheEntry>, e: CacheEntry)
    requires e in lru && forall i, j :: 0 <= i < j < |lru| ==> lru[i].key != lru[j].key
    ensures Values(Unlink(lru, e)) == Without(Values(lru), e.key)
    ensures Holds(Values(lru), e.key) && Find(Values(lru), e.key) == e.Value()
    ensures |Unlink(lru, e)| == |lru| - 1
  {
    var p := Place(lru, e);
    ValuesWithoutAt(lru, p);
    WithoutAt(Values(lru), e.key, p);
  }

  lemma UnlinkMembers(lru: seq<CacheEntry>, e: CacheEntry, x: CacheEntry)
    requires e in lru && forall i, j :: 0 <= i < j < |lru| ==> lru[i].key != lru[j].key
    ensures x in Unlink(lru, e) <==> x in lru && x.key != e.key
  {
  }

  lemma UnlinkKeepsLinked(lru: seq<CacheEntry>, entries: map<string, CacheEntry>, e: CacheEntry)
    requires Linked(lru, entries) && e in lru
    ensures Linked(Unlink(lru, e), entries - {e.key})
    ensures forall x :: x in Unlink(lru, e) ==> x in lru
  {
    var rest, entries' := Unlink(lru, e), entries - {e.key};
    forall x: CacheEntry | x in lru || x in rest ensures x in rest <==> x in lru && x.key != e.key {
      UnlinkMembers(lru, e, x);
    }
    forall k | k in entries' ensures entries'[k] in rest {
      assert entries[k] in lru;
    }
    forall i | 0 <= i < |rest| ensures rest[i].key in entries' && entries'[rest[i].key] == rest[i] {
      UnlinkMembers(lru, e, rest[i]);
      var j :| 0 <= j < |lru| && lru[j] == rest[i];
    }
    UnlinkKeysDistinct(lru, e);
  }

  lemma UnlinkKeysDistinct(lru: seq<CacheEntry>, e: CacheEntry)
    requires e in lru && forall i, j :: 0 <= i < j < |lru| ==> lru[i].key != lru[j].key
    ensures forall i, j :: 0 <= i < j < |Unlink(lru, e)| ==> Unlink(lru, e)[i].key != Unlink(lru, e)[j].key
  {
    var p := Place(lru, e);
  }

  lemma KeysAgree(lru: seq<CacheEntry>, entries: map<string, CacheEntry>, key: string)
    requires Linked(lru, entries)
    ensures key in entries <==> Holds(Values(lru), key)
  {
  }

  lemma PushKeepsLinked(lru: seq<CacheEntry>, entries: map<string, CacheEntry>, e: CacheEntry)
    requires Linked(lru, entries) && e.key !in entries
    ensures Linked([e] + lru, entries[e.key := e])
  {
  }

  lemma ValuesPush(lru: seq<CacheEntry>, e: CacheEntry)
    ensures Values([e] + lru) == [e.Value()] + Values(lru)
  {
  }

  lemma MoveKeepsLinked(lru: seq<CacheEntry>, entries: map<string, CacheEntry>, e: CacheEntry)
    requires Linked(lru, entries) && e in lru
    ensures Linked([e] + Unlink(lru, e), entries)
  {
    UnlinkKeepsLinked(lru, entries, e);
    PushKeepsLinked(Unlink(lru, e), entries - {e.key}, e);
    assert (entries - {e.key})[e.key := e] == entries;
  }

  lemma OthersDiffer(lru: seq<CacheEntry>, e: CacheEntry)
    requires e in lru && forall i, j :: 0 <= i < j < |lru| ==> lru[i].key != lru[j].key
    ensures e !in Unlink(lru, e)
  {
  }

  lemma {:induction false} EvictedHoldsLess(c: Cache, key: string)
    requires c.maxEntries >= 1 && !Holds(c.list, key)
    ensures !Holds(Evicted(c).list, key)
    decreases |c.list|
  {
    if |c.list| >= c.maxEntries {
      var last := c.list[|c.list| - 1].key;
      WithoutShrinks(c.list, last);
      WithoutHolds(c.list, last, key);
      EvictedHoldsLess(Removed(c, last), key);
    }
  }

  lemma ExpiredAre(lru: seq<CacheEntry>, entries: map<string, CacheEntry>, ttl: int, now: int, c: Cache,
                   gone: set<string>)
    requires Linked(lru, entries) && c.list == Values(lru) && c.ttl == ttl
    requires forall k :: k in gone <==> k in entries && now - entries[k].createdAt > ttl
    ensures gone == ExpiredKeys(c, now)
  {
  }

  lemma RemovedNone(c: Cache)
    ensures RemovedAll(c, {}) == c
  {
    WithoutNone(c.list);
    assert Images(ContentPath, {}) == {};
    assert c.files - {} == c.files;
  }

  lemma RemovedOneMore(c: Cache, keys: set<string>, k: string)
    requires Holds(RemovedAll(c, keys).list, k)
    ensures Removed(RemovedAll(c, keys), k) == RemovedAll(c, keys + {k})
  {
    WithoutAllStep(c.list, keys, k);
    assert Images(ContentPath, keys + {k}) == Images(ContentPath, keys) + {ContentPath(k)};
    var paths := Images(ContentPath, keys);
    assert c.files - paths - {ContentPath(k)} == c.files - (paths + {ContentPath(k)});
  }

  ghost predicate HoldsFrom(meta: seq<Entry>, i: nat, k: string) {
    exists j :: i <= j < |meta| && meta[j].key == k
  }

  lemma LoadUnfolds(meta: seq<Entry>, i: nat, files: map<string, Bytes>, now: int)
    requires i < |meta| && DistinctKeys(meta)
    ensures Load(ContentPath, meta[i..], files, now) ==
              LoadOne(ContentPath, meta[i], Load(ContentPath, meta[i + 1..], files, now), now)
    ensures !HoldsFrom(meta, i + 1, meta[i].key)
  {
  }

  lemma MoveBetween(done: set<string>, todo: set<string>, key: string)
    requires key in todo
    ensures (done + {key}) + (todo - {key}) == done + todo
  {
  }
}
