/** Saving and reloading the cache index (pkg/platformloader/disk_cache.go), and the order of the
    recency list by last access. JSON is taken to preserve the entries. */
module CachePersist {
  import opened Common
  import opened CacheModel
  import opened CacheLists
  import opened CacheRefinement
  import opened CacheHistory
  import opened CacheInclusion

  // ---- what loading keeps ----

  /** The entries that are young enough and whose file exists, in order. */
  function Kept(path: string -> string, entries: seq<Entry>, files: map<string, Bytes>, now: int): seq<Entry> {
    if entries == [] then []
    else (if TooOld(entries[0], now) || path(entries[0].key) !in files then [] else [entries[0]])
         + Kept(path, entries[1..], files, now)
  }

  ghost predicate PathsDistinct(path: string -> string, entries: seq<Entry>) {
    forall i, j :: 0 <= i < j < |entries| ==> path(entries[i].key) != path(entries[j].key)
  }

  /** The files of the entries that are too old. */
  function OldPaths(path: string -> string, entries: seq<Entry>, now: int): set<string> {
    if entries == [] then {}
    else OldPaths(path, entries[1..], now) + (if TooOld(entries[0], now) then {path(entries[0].key)} else {})
  }

  lemma {:induction false} OldPathsAre(path: string -> string, entries: seq<Entry>, now: int, p: string)
    requires forall i :: 0 <= i < |entries| ==> path(entries[i].key) != p || !TooOld(entries[i], now)
    ensures p !in OldPaths(path, entries, now)
  {
    if entries != [] {
      OldPathsAre(path, entries[1..], now, p);
    }
  }

  lemma {:induction false} LoadKeeps(path: string -> string, entries: seq<Entry>, files: map<string, Bytes>, now: int)
    requires PathsDistinct(path, entries)
    ensures Load(path, entries, files, now) == (Kept(path, entries, files, now), files - OldPaths(path, entries, now))
  {
    if entries != [] {
      LoadKeeps(path, entries[1..], files, now);
      OldPathsAre(path, entries[1..], now, path(entries[0].key));
      var kept, stale := Kept(path, entries[1..], files, now), OldPaths(path, entries[1..], now);
      assert [] + kept == kept;
      RemoveTwice(files, stale, path(entries[0].key));
      assert stale + {} == stale;
    } else {
      RemoveNone(files, OldPaths(path, entries, now));
    }
  }

  /** An entry is kept exactly when it is at most a day old and its file exists. */
  lemma {:induction false} KeptMeaning(path: string -> string, entries: seq<Entry>, files: map<string, Bytes>, now: int,
                                       e: Entry)
    ensures e in Kept(path, entries, files, now) <==>
              e in entries && now - e.createdAt <= 86_400_000_000_000 && path(e.key) in files
  {
    if entries != [] {
      KeptMeaning(path, entries[1..], files, now, e);
      assert entries == [entries[0]] + entries[1..];
    }
  }

  lemma {:induction false} KeepsAll(path: string -> string, entries: seq<Entry>, files: map<string, Bytes>, now: int)
    requires forall i :: 0 <= i < |entries| ==> !TooOld(entries[i], now) && path(entries[i].key) in files
    ensures Kept(path, entries, files, now) == entries
  {
    if entries != [] {
      KeepsAll(path, entries[1..], files, now);
    }
  }

  lemma NamesMakePathsDistinct(path: string -> string, names: set<string>, entries: seq<Entry>)
    requires NamesDistinct(path, names) && DistinctKeys(entries)
    requires forall i :: 0 <= i < |entries| ==> entries[i].key in names
    ensures PathsDistinct(path, entries)
  {
  }

  /** Reloading what was saved keeps exactly the young entries whose file exists, in order. */
  lemma ReloadKeeps(names: set<string>, c: Cache, max': int, ttl': int, now: int)
    requires NamesDistinct(ContentPath, names) && DistinctKeys(c.list)
    requires forall i :: 0 <= i < |c.list| ==> c.list[i].key in names
    ensures var r := Reopened(Saved(c, true), max', ttl', now);
            r.list == Kept(ContentPath, c.list, c.files, now) && r.files == c.files - OldPaths(ContentPath, c.list, now)
  {
    NamesMakePathsDistinct(ContentPath, names, c.list);
    LoadKeeps(ContentPath, c.list, c.files, now);
  }

  lemma {:induction false} NoneTooOld(path: string -> string, entries: seq<Entry>, now: int)
    requires forall i :: 0 <= i < |entries| ==> !TooOld(entries[i], now)
    ensures OldPaths(path, entries, now) == {}
  {
    if entries != [] {
      NoneTooOld(path, entries[1..], now);
    }
  }

  lemma RunIsSound(names: set<string>, max: int, ttl: int, ops: seq<Op>)
    requires NamesDistinct(ContentPath, names) && max >= 1 && AllMention(ops, names)
    ensures var c := Run(Empty(max, ttl), ops).0;
            Sound(c) && forall i :: 0 <= i < |c.list| ==> c.list[i].key in names
  {
    var c, b := Run(Empty(max, ttl), ops).0, MapAfter(max, ttl, ops);
    CacheRefinesMap(names, max, ttl, ops);
    RelSound(names, c, b);
    forall i | 0 <= i < |c.list| ensures c.list[i].key in names {
      assert EntryRel(ContentPath, c.list[i], c.files, b.cells, b.clock);
    }
  }

  /** Round trip: a cache reached by any trace, saved and reopened, comes back with its recency order,
      less only the entries older than the default time to live; when none is that old, nothing is
      lost. */
  lemma SaveLoadRoundTrip(names: set<string>, max: int, ttl: int, ops: seq<Op>, max': int, ttl': int, now: int)
    requires NamesDistinct(ContentPath, names) && max >= 1 && AllMention(ops, names)
    ensures var c := Run(Empty(max, ttl), ops).0;
            var r := Reopened(Saved(c, true), max', ttl', now);
            && r.list == Kept(ContentPath, c.list, c.files, now)
            && (forall i :: 0 <= i < |c.list| ==> ContentPath(c.list[i].key) in c.files)
            && ((forall i :: 0 <= i < |c.list| ==> now - c.list[i].createdAt <= 86_400_000_000_000) ==>
                  r.list == c.list && r.files == c.files)
  {
    var c := Run(Empty(max, ttl), ops).0;
    RunIsSound(names, max, ttl, ops);
    ReloadKeeps(names, c, max', ttl', now);
    if forall i :: 0 <= i < |c.list| ==> now - c.list[i].createdAt <= 86_400_000_000_000 {
      assert forall i :: 0 <= i < |c.list| ==> !TooOld(c.list[i], now);
      KeepsAll(ContentPath, c.list, c.files, now);
      NoneTooOld(ContentPath, c.list, now);
      RemoveNone(c.files, OldPaths(ContentPath, c.list, now));
    }
  }

  /** The operations that write the index, when the write succeeds. `Get` never does. */
  predicate WritesIndex(c: Cache, op: Op) {
    match op
    case Set(_, _, _, written, saved) => written && saved
    case Delete(_, saved) => saved
    case Prune(now, saved) => saved && ExpiredKeys(c, now) != {}
    case _ => false
  }

  /** After such an operation the index on disk is the list in memory, so reopening the directory right
      then gives back the same cache, less only the entries older than the default time to live. */
  lemma ReopenAfterWrite(names: set<string>, max: int, ttl: int, ops: seq<Op>, max': int, ttl': int, now: int)
    requires NamesDistinct(ContentPath, names) && max >= 1 && AllMention(ops, names) && ops != []
    requires WritesIndex(Run(Empty(max, ttl), ops[..|ops| - 1]).0, ops[|ops| - 1])
    ensures var c := Run(Empty(max, ttl), ops).0;
            && c.saved == Some(c.list)
            && Reopened(c, max', ttl', now).list == Kept(ContentPath, c.list, c.files, now)
  {
    SaveLoadRoundTrip(names, max, ttl, ops, max', ttl', now);
    var c := Run(Empty(max, ttl), ops).0;
    assert c.saved == Some(c.list);
    assert Saved(c, true) == c;
  }

  // ---- the list is ordered by last access ----

  /** Most recent access first, none later than `t`. */
  ghost predicate ByAccess(list: seq<Entry>, t: int) {
    && (forall i :: 0 <= i < |list| ==> list[i].accessedAt <= t)
    && (forall i, j :: 0 <= i < j < |list| ==> list[i].accessedAt >= list[j].accessedAt)
  }

  lemma {:induction false} WithoutAllByAccess(list: seq<Entry>, keys: set<string>, t: int)
    requires ByAccess(list, t)
    ensures ByAccess(WithoutAll(list, keys), t)
  {
    if list != [] {
      var bound := list[0].accessedAt;
      assert ByAccess(list[1..], bound);
      WithoutAllByAccess(list[1..], keys, bound);
    }
  }

  lemma WithoutByAccess(list: seq<Entry>, key: string, t: int)
    requires ByAccess(list, t)
    ensures ByAccess(Without(list, key), t)
  {
    WithoutAllByAccess(list, {key}, t);
    WithoutAllStep(list, {}, key);
    WithoutNone(list);
    assert {} + {key} == {key};
  }

  lemma {:induction false} EvictedByAccess(c: Cache, t: int)
    requires c.maxEntries >= 1 && ByAccess(c.list, t)
    ensures ByAccess(Evicted(c).list, t)
    decreases |c.list|
  {
    if |c.list| >= c.maxEntries {
      var key := c.list[|c.list| - 1].key;
      WithoutShrinks(c.list, key);
      WithoutByAccess(c.list, key, t);
      EvictedByAccess(Removed(c, key), t);
    }
  }

  lemma PlacedByAccess(c: Cache, key: string, size: nat, now: int, t: int)
    requires c.maxEntries >= 1 && ByAccess(c.list, t) && now >= t
    ensures ByAccess(Placed(c, key, size, now).list, now)
  {
    WithoutByAccess(c.list, key, t);
    EvictedByAccess(c, t);
  }

  lemma DoByAccess(c: Cache, op: Op, t: int)
    requires c.maxEntries >= 1 && ByAccess(c.list, t) && Clock(op, t) >= t
    ensures ByAccess(Do(c, op).0.list, Clock(op, t))
  {
    match op
    case Get(key, now) => WithoutByAccess(c.list, key, t);
    case Set(key, content, now, written, saved) =>
      PlacedByAccess(c, key, |content|, now, t);
      WithoutByAccess(Placed(c, key, |content|, now).list, key, now);
    case Delete(key, _) => WithoutByAccess(c.list, key, t);
    case Prune(now, _) => WithoutAllByAccess(c.list, ExpiredKeys(c, now), t);
    case Clear(_) =>
  }

  /** With a clock that never runs backwards, in every reachable state the list is ordered by last
      access, so the entry at the back, which eviction takes, is a least recently accessed one. */
  lemma {:induction false} ListOrderedByAccess(max: int, ttl: int, ops: seq<Op>, start: int)
    requires max >= 1 && Forward(ops, start)
    ensures ByAccess(Run(Empty(max, ttl), ops).0.list, Now(ops, start))
    decreases |ops|
  {
    if ops != [] {
      var init := ops[..|ops| - 1];
      ListOrderedByAccess(max, ttl, init, start);
      DoByAccess(Run(Empty(max, ttl), init).0, ops[|ops| - 1], Now(init, start));
    }
  }
}
