/** Reopening the cache when the clock does not run backwards. */
module CacheReopenClock {
  import opened Common
  import opened CacheModel
  import opened CacheLists
  import opened CacheRefinement
  import opened CacheHistory
  import opened CachePersist
  import opened CacheReopen

  // ---- no key is listed twice ----

  ghost predicate Tidy(c: Cache) {
    DistinctKeys(c.list) && (c.saved.Some? ==> DistinctKeys(c.saved.value))
  }

  lemma {:induction false} EvictedTidy(c: Cache)
    requires c.maxEntries >= 1 && DistinctKeys(c.list)
    ensures DistinctKeys(Evicted(c).list)
    decreases |c.list|
  {
    if |c.list| >= c.maxEntries {
      BackRemovedShape(c);
      WithoutDistinct(c.list, c.list[|c.list| - 1].key);
      EvictedTidy(BackRemoved(c));
      EvictUnfolds(c);
    }
  }

  lemma PlacedTidy(c: Cache, key: string, size: nat, now: int)
    requires c.maxEntries >= 1 && DistinctKeys(c.list)
    ensures DistinctKeys(Placed(c, key, size, now).list)
  {
    if Holds(c.list, key) {
      FindKey(c.list, key);
      WithoutDistinct(c.list, key);
      ConsDistinct(Find(c.list, key).(accessedAt := now, size := size), Without(c.list, key));
    } else {
      EvictedTidy(c);
      EvictedFewer(c);
      ConsDistinct(Entry(key, key, size, now, now), Evicted(c).list);
    }
  }

  lemma DoTidy(c: Cache, op: Op)
    requires c.maxEntries >= 1 && Tidy(c)
    ensures Tidy(Do(c, op).0)
  {
    DoKnows(c, op);
    match op
    case Get(key, now) =>
      WithoutDistinct(c.list, key);
      if Holds(c.list, key) {
        FindKey(c.list, key);
        ConsDistinct(Find(c.list, key).(accessedAt := now), Without(c.list, key));
      }
    case Set(key, content, now, _, _) =>
      PlacedTidy(c, key, |content|, now);
      WithoutDistinct(Placed(c, key, |content|, now).list, key);
    case Delete(key, _) => WithoutDistinct(c.list, key);
    case Prune(now, _) => WithoutAllDistinct(c.list, ExpiredKeys(c, now));
    case Clear(_) =>
  }

  lemma {:induction false} LoadTidy(path: string -> string, entries: seq<Entry>, files: map<string, Bytes>, now: int)
    requires DistinctKeys(entries)
    ensures DistinctKeys(Load(path, entries, files, now).0)
  {
    if entries != [] {
      LoadTidy(path, entries[1..], files, now);
      LoadKnows(path, entries[1..], files, now);
      assert !Holds(entries[1..], entries[0].key);
      ConsDistinct(entries[0], Load(path, entries[1..], files, now).0);
    }
  }

  lemma NextTidy(c: Cache, e: Event)
    requires c.maxEntries >= 1 && Tidy(c)
    ensures Tidy(Next(c, e))
  {
    match e
    case Work(op) => DoTidy(c, op);
    case Reopen(_, _, now, _) =>
      if c.saved.Some? {
        LoadTidy(ContentPath, c.saved.value, c.files, now);
      }
  }

  lemma {:induction false} AfterTidy(names: set<string>, max: int, ttl: int, es: seq<Event>, i: nat)
    requires max >= 1 && Allowed(es, names) && i <= |es|
    ensures Tidy(After(names, max, ttl, es[..i]))
  {
    if i > 0 {
      AfterTidy(names, max, ttl, es, i - 1);
      AfterNext(names, max, ttl, es, i - 1);
      NextTidy(After(names, max, ttl, es[..i - 1]), es[i - 1]);
    }
  }

  // ---- the clock ----

  /** The last clock reading of the first `i` events. */
  function TimeAt(es: seq<Event>, start: int, i: nat): int
    requires i <= |es|
  {
    if i == 0 then start
    else
      match es[i - 1]
      case Work(op) => Clock(op, TimeAt(es, start, i - 1))
      case Reopen(_, _, now, _) => now
  }

  /** The clock never runs backwards. */
  ghost predicate ForwardEvents(es: seq<Event>, start: int) {
    forall i :: 0 <= i < |es| ==> TimeAt(es, start, i) <= TimeAt(es, start, i + 1)
  }

  // ---- what can still be read ----

  /** `key` is not in memory, and its place in the index, if it has one, is too old to be loaded again. */
  ghost predicate Buried(c: Cache, key: string, t: int) {
    && !Holds(c.list, key)
    && (c.saved.Some? ==> forall j :: 0 <= j < |c.saved.value| && c.saved.value[j].key == key ==>
          TooOld(c.saved.value[j], t))
  }

  ghost predicate TrueOrBuried(c: Cache, ops: seq<Op>, key: string, t: int) {
    FileTrue(c, ops, key) || Buried(c, key, t)
  }

  ghost predicate AllTrueOrBuried(names: set<string>, c: Cache, ops: seq<Op>, t: int) {
    KnownIn(names, c) && forall k :: k in names ==> TrueOrBuried(c, ops, k, t)
  }

  /** A failing delete of a key that is on disk but not in memory, while its place in the index is young
      enough to be loaded again. */
  ghost predicate ResurrectsBy(c: Cache, op: Op, t: int) {
    && Resurrects(c, op)
    && exists j :: 0 <= j < |c.saved.value| && c.saved.value[j].key == op.key && !TooOld(c.saved.value[j], t)
  }

  lemma StaysBuried(c: Cache, op: Op, key: string, t: int, t': int)
    requires c.maxEntries >= 1 && Buried(c, key, t) && t <= t' && (op.Set? ==> op.key != key)
    ensures Buried(Do(c, op).0, key, t')
  {
    DoKnows(c, op);
    var d := Do(c, op).0;
    if d.saved == Some(d.list) {
      assert forall j :: 0 <= j < |d.list| ==> d.list[j].key != key;
    }
  }

  lemma DoTrueOrBuried(names: set<string>, c: Cache, ops: seq<Op>, op: Op, key: string, t: int)
    requires c.maxEntries >= 1 && NamesDistinct(ContentPath, names) && Mentions(op, names) && key in names
    requires TrueOrBuried(c, ops, key, t) && !ResurrectsBy(c, op, t) && t <= Clock(op, t)
    ensures TrueOrBuried(Do(c, op).0, ops + [op], key, Clock(op, t))
  {
    if op.Set? && op.key == key {
      SetTrue(names, c, ops, op, key);
    } else if Buried(c, key, t) {
      StaysBuried(c, op, key, t, Clock(op, t));
    } else {
      DoTrue(names, c, ops, op, key);
    }
  }

  /** Loading brings back only entries that are young enough. */
  lemma {:induction false} LoadedIsYoung(path: string -> string, entries: seq<Entry>, files: map<string, Bytes>,
                                         now: int, key: string)
    requires Holds(Load(path, entries, files, now).0, key)
    ensures exists j :: 0 <= j < |entries| && entries[j].key == key && !TooOld(entries[j], now)
  {
    var rest := Load(path, entries[1..], files, now).0;
    HoldsCons(entries[0], rest, key);
    if Holds(rest, key) {
      LoadedIsYoung(path, entries[1..], files, now, key);
      var j :| 0 <= j < |entries[1..]| && entries[1..][j].key == key && !TooOld(entries[1..][j], now);
      assert entries[j + 1].key == key && !TooOld(entries[j + 1], now);
    } else {
      assert entries[0].key == key && !TooOld(entries[0], now);
    }
  }

  lemma ReopenTrueOrBuried(c: Cache, ops: seq<Op>, e: Event, key: string, t: int)
    requires e.Reopen? && t <= e.now && TrueOrBuried(c, ops, key, t)
    ensures TrueOrBuried(ReopenedAs(c, e), ops, key, e.now)
  {
    ReopenKnows(c, e);
    if Buried(c, key, t) && c.saved.Some? && Holds(ReopenedAs(c, e).list, key) {
      LoadedIsYoung(ContentPath, c.saved.value, c.files, e.now, key);
    }
  }

  lemma ReopenAllTrueOrBuried(names: set<string>, c: Cache, ops: seq<Op>, e: Event, t: int)
    requires e.Reopen? && t <= e.now && AllTrueOrBuried(names, c, ops, t)
    ensures AllTrueOrBuried(names, ReopenedAs(c, e), ops, e.now)
  {
    ReopenKnows(c, e);
    forall k | k in names ensures TrueOrBuried(ReopenedAs(c, e), ops, k, e.now) {
      ReopenTrueOrBuried(c, ops, e, k, t);
    }
  }

  // ---- whole traces ----

  ghost predicate ResurrectsByAt(names: set<string>, max: int, ttl: int, es: seq<Event>, start: int, i: nat)
    requires max >= 1 && Allowed(es, names) && i < |es|
  {
    es[i].Work? && ResurrectsBy(After(names, max, ttl, es[..i]), es[i].op, TimeAt(es, start, i))
  }

  lemma NextAllTrueOrBuried(names: set<string>, c: Cache, ops: seq<Op>, op: Op, t: int)
    requires c.maxEntries >= 1 && NamesDistinct(ContentPath, names) && Mentions(op, names)
    requires AllTrueOrBuried(names, c, ops, t) && !ResurrectsBy(c, op, t) && t <= Clock(op, t)
    ensures AllTrueOrBuried(names, Do(c, op).0, ops + [op], Clock(op, t))
  {
    DoKnownIn(names, c, op);
    forall k | k in names ensures TrueOrBuried(Do(c, op).0, ops + [op], k, Clock(op, t)) {
      DoTrueOrBuried(names, c, ops, op, k, t);
    }
  }

  lemma {:induction false} TraceTrueOrBuried(names: set<string>, max: int, ttl: int, es: seq<Event>, start: int, i: nat)
    requires NamesDistinct(ContentPath, names) && max >= 1 && Allowed(es, names) && i <= |es|
    requires ForwardEvents(es, start)
    requires forall j :: 0 <= j < i ==> !ResurrectsByAt(names, max, ttl, es, start, j)
    ensures AllTrueOrBuried(names, After(names, max, ttl, es[..i]), Works(es[..i]), TimeAt(es, start, i))
  {
    if i > 0 {
      TraceTrueOrBuried(names, max, ttl, es, start, i - 1);
      AfterNext(names, max, ttl, es, i - 1);
      var c, ops, t := After(names, max, ttl, es[..i - 1]), Works(es[..i - 1]), TimeAt(es, start, i - 1);
      assert t <= TimeAt(es, start, i - 1 + 1);
      match es[i - 1]
      case Work(op) =>
        assert !ResurrectsByAt(names, max, ttl, es, start, i - 1);
        NextAllTrueOrBuried(names, c, ops, op, t);
      case Reopen(_, _, _, _) =>
        ReopenAllTrueOrBuried(names, c, ops, es[i - 1], t);
        assert ops + [] == ops;
    }
  }

  /** After the first `i` events, a lookup of any key gets its latest bytes or a miss, whether it is made
      right away or after opening the directory once more, no earlier than the last clock reading. */
  ghost predicate ReadsLatestSince(names: set<string>, max: int, ttl: int, es: seq<Event>, start: int, i: nat)
    requires max >= 1 && Allowed(es, names) && i <= |es|
  {
    var c, ops := After(names, max, ttl, es[..i]), Works(es[..i]);
    && (forall key, now :: key in names ==> Got(c, key, now).1 in {None, Latest(ops, key)})
    && (forall r: Event, key, now :: r.Reopen? && TimeAt(es, start, i) <= r.now && key in names ==>
          Got(ReopenedAs(c, r), key, now).1 in {None, Latest(ops, key)})
  }

  lemma TrueOrBuriedReads(c: Cache, ops: seq<Op>, key: string, t: int, now: int)
    requires TrueOrBuried(c, ops, key, t)
    ensures Got(c, key, now).1 in {None, Latest(ops, key)}
  {
  }

  lemma AllTrueOrBuriedReads(names: set<string>, c: Cache, ops: seq<Op>, t: int)
    requires AllTrueOrBuried(names, c, ops, t)
    ensures forall key, now :: key in names ==> Got(c, key, now).1 in {None, Latest(ops, key)}
    ensures forall r: Event, key, now :: r.Reopen? && t <= r.now && key in names ==>
              Got(ReopenedAs(c, r), key, now).1 in {None, Latest(ops, key)}
  {
    forall key, now | key in names ensures Got(c, key, now).1 in {None, Latest(ops, key)} {
      TrueOrBuriedReads(c, ops, key, t, now);
    }
    forall r: Event, key, now | r.Reopen? && t <= r.now && key in names
      ensures Got(ReopenedAs(c, r), key, now).1 in {None, Latest(ops, key)}
    {
      ReopenTrueOrBuried(c, ops, r, key, t);
      TrueOrBuriedReads(ReopenedAs(c, r), ops, key, r.now, now);
    }
  }

  // ---- the wrong file is read ----

  lemma {:induction false} KeptHas(path: string -> string, entries: seq<Entry>, files: map<string, Bytes>, now: int,
                                   j: nat)
    requires j < |entries| && !TooOld(entries[j], now) && path(entries[j].key) in files
    ensures Holds(Kept(path, entries, files, now), entries[j].key)
    decreases entries
  {
    var rest := Kept(path, entries[1..], files, now);
    HoldsCons(entries[0], rest, entries[j].key);
    if j > 0 {
      KeptHas(path, entries[1..], files, now, j - 1);
      assert [] + rest == rest;
    }
  }

  lemma {:induction false} KeptYoung(path: string -> string, entries: seq<Entry>, files: map<string, Bytes>, now: int)
    ensures forall e :: e in Kept(path, entries, files, now) ==> !TooOld(e, now)
  {
    if entries != [] {
      KeptYoung(path, entries[1..], files, now);
    }
  }

  /** Reopening at that very moment reads the bytes that were to be deleted. */
  lemma ResurrectedByIsRead(names: set<string>, c: Cache, op: Op, t: int) returns (r: Event)
    requires NamesDistinct(ContentPath, names) && KnownIn(names, c) && Tidy(c) && ResurrectsBy(c, op, t)
    ensures r.Reopen? && r.now == t && Got(ReopenedAs(AfterDelete(c, op.key, op.saved), r), op.key, t).1.Some?
  {
    r := Reopen(1, DEFAULT_TTL, t, true);
    var entries := c.saved.value;
    var j :| 0 <= j < |entries| && entries[j].key == op.key && !TooOld(entries[j], t);
    forall i | 0 <= i < |entries| ensures entries[i].key in names {
      assert Holds(entries, entries[i].key);
      assert Known(c, entries[i].key);
    }
    NamesMakePathsDistinct(ContentPath, names, entries);
    LoadKeeps(ContentPath, entries, c.files, t);
    OldPathsAre(ContentPath, entries, t, ContentPath(op.key));
    KeptHas(ContentPath, entries, c.files, t, j);
    KeptYoung(ContentPath, entries, c.files, t);
    FindKey(Kept(ContentPath, entries, c.files, t), op.key);
  }

  /** Exactly when reopening is safe, with a clock that does not run backwards: at every point of a trace
      lookups read the latest bytes or miss, now and after any later reopening, if and only if no delete
      of a key that is on disk but not in memory fails to write the index while the key's place in the
      index is young enough to be loaded. */
  lemma ForwardReopenReadsLatestIff(names: set<string>, max: int, ttl: int, es: seq<Event>, start: int)
    requires NamesDistinct(ContentPath, names) && max >= 1 && Allowed(es, names) && ForwardEvents(es, start)
    ensures (forall i :: 0 <= i <= |es| ==> ReadsLatestSince(names, max, ttl, es, start, i)) <==>
            (forall i :: 0 <= i < |es| ==> !ResurrectsByAt(names, max, ttl, es, start, i))
  {
    if exists i :: 0 <= i < |es| && ResurrectsByAt(names, max, ttl, es, start, i) {
      var i := FirstResurrection(names, max, ttl, es, start);
      ResurrectionIsRead(names, max, ttl, es, start, i);
    } else {
      forall i | 0 <= i <= |es| ensures ReadsLatestSince(names, max, ttl, es, start, i) {
        TraceTrueOrBuried(names, max, ttl, es, start, i);
        AllTrueOrBuriedReads(names, After(names, max, ttl, es[..i]), Works(es[..i]), TimeAt(es, start, i));
      }
    }
  }

  lemma FirstResurrection(names: set<string>, max: int, ttl: int, es: seq<Event>, start: int) returns (i: nat)
    requires max >= 1 && Allowed(es, names)
    requires exists i :: 0 <= i < |es| && ResurrectsByAt(names, max, ttl, es, start, i)
    ensures i < |es| && ResurrectsByAt(names, max, ttl, es, start, i)
    ensures forall j :: 0 <= j < i ==> !ResurrectsByAt(names, max, ttl, es, start, j)
  {
    i := 0;
    while !ResurrectsByAt(names, max, ttl, es, start, i)
      invariant i < |es| && forall j :: 0 <= j < i ==> !ResurrectsByAt(names, max, ttl, es, start, j)
      decreases |es| - i
    {
      i := i + 1;
    }
  }

  lemma ResurrectionIsRead(names: set<string>, max: int, ttl: int, es: seq<Event>, start: int, i: nat)
    requires NamesDistinct(ContentPath, names) && max >= 1 && Allowed(es, names) && ForwardEvents(es, start)
    requires i < |es| && ResurrectsByAt(names, max, ttl, es, start, i)
    requires forall j :: 0 <= j < i ==> !ResurrectsByAt(names, max, ttl, es, start, j)
    ensures !ReadsLatestSince(names, max, ttl, es, start, i + 1)
  {
    var c, op, t := After(names, max, ttl, es[..i]), es[i].op, TimeAt(es, start, i);
    TraceTrueOrBuried(names, max, ttl, es, start, i);
    AfterTidy(names, max, ttl, es, i);
    var r := ResurrectedByIsRead(names, c, op, t);
    AfterNext(names, max, ttl, es, i);
    LatestNext(Works(es[..i]), op, op.key);
    assert Known(c, op.key);
  }
}
