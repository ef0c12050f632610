/** Traces that close and reopen the cache: index writes may fail, and on reopening the index may be
    unreadable. */
module CacheReopen {
  import opened Common
  import opened CacheModel
  import opened CacheLists
  import opened CacheRefinement
  import opened CacheHistory

  /** `Reopen` constructs a new cache over the same directory. When the index cannot be read or parsed
      the new cache starts empty, and both the index and the files stay. */
  datatype Event = Work(op: Op) | Reopen(maxEntries: int, ttl: int, now: int, readable: bool)

  function ReopenedAs(c: Cache, e: Event): Cache
    requires e.Reopen?
  {
    if e.readable then Reopened(c, e.maxEntries, e.ttl, e.now)
    else c.(maxEntries := e.maxEntries, ttl := e.ttl, list := [])
  }

  /** Reopening changes neither the index nor, when the index is unreadable or missing, any file. */
  lemma ReopenedMeaning(c: Cache, e: Event)
    requires e.Reopen?
    ensures var r := ReopenedAs(c, e);
            && r.maxEntries == e.maxEntries && r.ttl == e.ttl && r.saved == c.saved
            && (!e.readable || c.saved == None ==> r.list == [] && r.files == c.files)
  {
  }

  function Next(c: Cache, e: Event): Cache
    requires c.maxEntries >= 1
  {
    match e
    case Work(op) => Do(c, op).0
    case Reopen(_, _, _, _) => ReopenedAs(c, e)
  }

  ghost predicate Allowed(es: seq<Event>, names: set<string>) {
    forall i :: 0 <= i < |es| ==>
      match es[i] case Work(op) => Mentions(op, names) case Reopen(max, _, _, _) => max >= 1
  }

  ghost function After(names: set<string>, max: int, ttl: int, es: seq<Event>): (c: Cache)
    requires max >= 1 && Allowed(es, names)
    ensures c.maxEntries >= 1
    decreases |es|
  {
    if es == [] then Empty(max, ttl)
    else
      var init, last := es[..|es| - 1], es[|es| - 1];
      assert Allowed(init, names);
      Next(After(names, max, ttl, init), last)
  }

  /** The operations alone. */
  function Works(es: seq<Event>): seq<Op> {
    if es == [] then []
    else Works(es[..|es| - 1]) + (if es[|es| - 1].Work? then [es[|es| - 1].op] else [])
  }

  // ---- what the directory knows ----

  /** In memory or in the index. */
  ghost predicate Known(c: Cache, k: string) {
    Holds(c.list, k) || (c.saved.Some? && Holds(c.saved.value, k))
  }

  /** A file of a known key has the bytes that the key should have. */
  ghost predicate FileTrue(c: Cache, ops: seq<Op>, k: string) {
    Known(c, k) && ContentPath(k) in c.files ==> Some(c.files[ContentPath(k)]) == Latest(ops, k)
  }

  ghost predicate KnownIn(names: set<string>, c: Cache) {
    forall k :: Known(c, k) ==> k in names
  }

  ghost predicate AllTrue(names: set<string>, c: Cache, ops: seq<Op>) {
    KnownIn(names, c) && forall k :: k in names ==> FileTrue(c, ops, k)
  }

  /** `d` knows no key and has no file that `c` does not. */
  ghost predicate Shrunk(c: Cache, d: Cache) {
    (forall k :: Known(d, k) ==> Known(c, k)) && FewerFiles(c, d)
  }

  ghost predicate FewerFiles(c: Cache, d: Cache) {
    forall p :: p in d.files ==> p in c.files && d.files[p] == c.files[p]
  }

  /** The same index, and no key in memory and no file that `c` does not have. */
  ghost predicate Fewer(c: Cache, d: Cache) {
    d.saved == c.saved && (forall k :: Holds(d.list, k) ==> Holds(c.list, k)) && FewerFiles(c, d)
  }

  lemma ShrunkTrue(names: set<string>, c: Cache, d: Cache, ops: seq<Op>)
    requires AllTrue(names, c, ops) && Shrunk(c, d)
    ensures AllTrue(names, d, ops)
  {
    forall k | k in names ensures FileTrue(d, ops, k) {
      assert FileTrue(c, ops, k);
    }
  }

  // ---- lists ----

  /** Moving a held entry to the front holds the same keys. */
  lemma FrontHolds(list: seq<Entry>, e: Entry, k: string)
    requires Holds(list, e.key)
    ensures Holds([e] + Without(list, e.key), k) <==> Holds(list, k)
  {
    HoldsCons(e, Without(list, e.key), k);
    WithoutHolds(list, e.key, k);
  }

  // ---- removals ----

  lemma RemovedFewer(c: Cache, key: string)
    ensures Fewer(c, Removed(c, key))
    ensures forall k :: Holds(Removed(c, key).list, k) <==> Holds(c.list, k) && k != key
  {
    forall k ensures Holds(Removed(c, key).list, k) <==> Holds(c.list, k) && k != key {
      WithoutHolds(c.list, key, k);
    }
  }

  lemma {:induction false} EvictedFewer(c: Cache)
    requires c.maxEntries >= 1
    ensures Fewer(c, Evicted(c))
    ensures forall k :: Holds(c.list, k) && ContentPath(k) in Evicted(c).files ==> Holds(Evicted(c).list, k)
    decreases |c.list|
  {
    if |c.list| >= c.maxEntries {
      var key := c.list[|c.list| - 1].key;
      WithoutShrinks(c.list, key);
      RemovedFewer(c, key);
      EvictedFewer(BackRemoved(c));
    }
  }

  lemma RemovedAllFewer(c: Cache, gone: set<string>)
    ensures Fewer(c, RemovedAll(c, gone))
    ensures forall k :: Holds(RemovedAll(c, gone).list, k) <==> Holds(c.list, k) && k !in gone
  {
    forall k ensures Holds(RemovedAll(c, gone).list, k) <==> Holds(c.list, k) && k !in gone {
      WithoutAllHolds(c.list, gone, k);
    }
  }

  /** Placing an entry puts its key on the list; any other key that goes takes its file along. */
  lemma PlacedKnows(c: Cache, key: string, size: nat, now: int)
    requires c.maxEntries >= 1
    ensures var placed := Placed(c, key, size, now);
            && placed.saved == c.saved && Holds(placed.list, key) && FewerFiles(c, placed)
            && (forall k :: Holds(placed.list, k) ==> k == key || Holds(c.list, k))
            && (forall k :: Holds(c.list, k) && ContentPath(k) in placed.files ==> Holds(placed.list, k))
  {
    var placed := Placed(c, key, size, now);
    if Holds(c.list, key) {
      FindKey(c.list, key);
      forall k ensures Holds(placed.list, k) <==> Holds(c.list, k) {
        FrontHolds(c.list, Find(c.list, key).(accessedAt := now, size := size), k);
      }
    } else {
      EvictedFewer(c);
      forall k ensures Holds(placed.list, k) <==> k == key || Holds(Evicted(c).list, k) {
        HoldsCons(Entry(key, key, size, now, now), Evicted(c).list, k);
      }
    }
  }

  // ---- reopening ----

  /** What loading keeps: entries of the index whose file is left, and no file that was not there. */
  lemma {:induction false} LoadKnows(path: string -> string, entries: seq<Entry>, files: map<string, Bytes>, now: int)
    ensures var (list, left) := Load(path, entries, files, now);
            && (forall k :: Holds(list, k) ==> Holds(entries, k))
            && (forall k :: Holds(entries, k) && path(k) in left ==> Holds(list, k))
            && (forall p :: p in left ==> p in files && left[p] == files[p])
  {
    if entries != [] {
      LoadKnows(path, entries[1..], files, now);
      var rest := Load(path, entries[1..], files, now).0;
      assert [entries[0]] + entries[1..] == entries;
      forall k
        ensures Holds([entries[0]] + rest, k) <==> entries[0].key == k || Holds(rest, k)
        ensures Holds(entries, k) <==> entries[0].key == k || Holds(entries[1..], k)
      {
        HoldsCons(entries[0], rest, k);
        HoldsCons(entries[0], entries[1..], k);
      }
    }
  }

  lemma ReopenKnows(c: Cache, e: Event)
    requires e.Reopen?
    ensures Shrunk(c, ReopenedAs(c, e))
    ensures e.readable ==> IndexedIsHeld(ReopenedAs(c, e))
  {
    if e.readable && c.saved.Some? {
      LoadKnows(ContentPath, c.saved.value, c.files, e.now);
    }
  }

  // ---- one event ----

  lemma LatestNext(ops: seq<Op>, op: Op, k: string)
    ensures Latest(ops + [op], k) ==
              match op
              case Set(x, content, _, written, _) =>
                if x != k then Latest(ops, k) else if written then Some(content) else None
              case Delete(x, _) => if x == k then None else Latest(ops, k)
              case Clear(listed) => if listed then None else Latest(ops, k)
              case _ => Latest(ops, k)
  {
    assert (ops + [op])[..|ops|] == ops;
  }

  lemma GetFewer(c: Cache, key: string, now: int)
    ensures Fewer(c, Got(c, key, now).0)
    ensures forall k :: Holds(c.list, k) && ContentPath(k) in Got(c, key, now).0.files ==>
              Holds(Got(c, key, now).0.list, k)
  {
    RemovedFewer(c, key);
    if Holds(c.list, key) {
      FindKey(c.list, key);
      forall k ensures Holds([Find(c.list, key).(accessedAt := now)] + Without(c.list, key), k) <==> Holds(c.list, k) {
        FrontHolds(c.list, Find(c.list, key).(accessedAt := now), k);
      }
    }
  }

  /** What an operation may make known: nothing but the key it sets. */
  lemma DoKnows(c: Cache, op: Op)
    requires c.maxEntries >= 1
    ensures forall k :: Holds(Do(c, op).0.list, k) ==> Holds(c.list, k) || (op.Set? && op.key == k)
    ensures var d := Do(c, op).0; d.saved == c.saved || d.saved == Some(d.list) || d.saved == None
  {
    match op
    case Get(key, now) => GetFewer(c, key, now);
    case Set(key, content, now, _, _) =>
      PlacedKnows(c, key, |content|, now);
      RemovedFewer(Placed(c, key, |content|, now), key);
    case Delete(key, _) => RemovedFewer(c, key);
    case Prune(now, _) => RemovedAllFewer(c, ExpiredKeys(c, now));
    case Clear(_) =>
  }

  lemma DoKnownIn(names: set<string>, c: Cache, op: Op)
    requires c.maxEntries >= 1 && KnownIn(names, c) && Mentions(op, names)
    ensures KnownIn(names, Do(c, op).0)
  {
    DoKnows(c, op);
  }

  /** Setting a key makes its own file true and leaves the others alone. */
  lemma SetTrue(names: set<string>, c: Cache, ops: seq<Op>, op: Op, k: string)
    requires c.maxEntries >= 1 && op.Set? && op.key in names && NamesDistinct(ContentPath, names) && k in names
    requires k != op.key ==> FileTrue(c, ops, k)
    ensures FileTrue(Do(c, op).0, ops + [op], k)
  {
    PlacedKnows(c, op.key, |op.content|, op.now);
    RemovedFewer(Placed(c, op.key, |op.content|, op.now), op.key);
    LatestNext(ops, op, k);
    DoKnows(c, op);
  }

  /** The one operation that leaves a wrong file behind: deleting a key that is not in memory but still
      has its file and its place in the index, when the index cannot be written. */
  predicate Resurrects(c: Cache, op: Op) {
    && op.Delete? && !op.saved && !Holds(c.list, op.key)
    && c.saved.Some? && Holds(c.saved.value, op.key) && ContentPath(op.key) in c.files
  }

  lemma DeleteTrue(c: Cache, ops: seq<Op>, op: Op, k: string)
    requires op.Delete? && (op.key == k ==> !Resurrects(c, op)) && FileTrue(c, ops, k)
    ensures FileTrue(AfterDelete(c, op.key, op.saved), ops + [op], k)
  {
    RemovedFewer(c, op.key);
    LatestNext(ops, op, k);
  }

  /** What an operation does to the truth about one key. */
  lemma DoTrue(names: set<string>, c: Cache, ops: seq<Op>, op: Op, k: string)
    requires c.maxEntries >= 1 && NamesDistinct(ContentPath, names) && Mentions(op, names) && k in names
    requires FileTrue(c, ops, k) && (Resurrects(c, op) ==> op.key != k)
    ensures FileTrue(Do(c, op).0, ops + [op], k)
  {
    LatestNext(ops, op, k);
    match op
    case Get(key, now) => GetFewer(c, key, now);
    case Set(_, _, _, _, _) => SetTrue(names, c, ops, op, k);
    case Delete(_, _) => DeleteTrue(c, ops, op, k);
    case Prune(now, _) => RemovedAllFewer(c, ExpiredKeys(c, now));
    case Clear(_) =>
  }

  lemma DoAllTrue(names: set<string>, c: Cache, ops: seq<Op>, op: Op)
    requires c.maxEntries >= 1 && NamesDistinct(ContentPath, names) && Mentions(op, names)
    requires AllTrue(names, c, ops) && !Resurrects(c, op)
    ensures AllTrue(names, Do(c, op).0, ops + [op])
  {
    DoKnownIn(names, c, op);
    forall k | k in names ensures FileTrue(Do(c, op).0, ops + [op], k) {
      DoTrue(names, c, ops, op, k);
    }
  }

  // ---- whole traces ----

  ghost predicate ResurrectsAt(names: set<string>, max: int, ttl: int, es: seq<Event>, i: nat)
    requires max >= 1 && Allowed(es, names) && i < |es|
  {
    es[i].Work? && Resurrects(After(names, max, ttl, es[..i]), es[i].op)
  }

  lemma AfterNext(names: set<string>, max: int, ttl: int, es: seq<Event>, i: nat)
    requires max >= 1 && Allowed(es, names) && i < |es|
    ensures After(names, max, ttl, es[..i + 1]) == Next(After(names, max, ttl, es[..i]), es[i])
    ensures Works(es[..i + 1]) == Works(es[..i]) + (if es[i].Work? then [es[i].op] else [])
  {
    assert es[..i + 1][..i] == es[..i];
  }

  lemma {:induction false} TraceTrue(names: set<string>, max: int, ttl: int, es: seq<Event>, i: nat)
    requires NamesDistinct(ContentPath, names) && max >= 1 && Allowed(es, names) && i <= |es|
    requires forall j :: 0 <= j < i ==> !ResurrectsAt(names, max, ttl, es, j)
    ensures AllTrue(names, After(names, max, ttl, es[..i]), Works(es[..i]))
  {
    if i > 0 {
      TraceTrue(names, max, ttl, es, i - 1);
      AfterNext(names, max, ttl, es, i - 1);
      var c, ops := After(names, max, ttl, es[..i - 1]), Works(es[..i - 1]);
      match es[i - 1]
      case Work(op) =>
        assert !ResurrectsAt(names, max, ttl, es, i - 1);
        DoAllTrue(names, c, ops, op);
      case Reopen(_, _, _, _) =>
        ReopenKnows(c, es[i - 1]);
        ShrunkTrue(names, c, ReopenedAs(c, es[i - 1]), ops);
        assert ops + [] == ops;
    }
  }

  /** After the first `i` events, a lookup of any key gets its latest bytes or a miss, whether it is made
      right away or after opening the directory once more. */
  ghost predicate ReadsLatestAt(names: set<string>, max: int, ttl: int, es: seq<Event>, i: nat)
    requires max >= 1 && Allowed(es, names) && i <= |es|
  {
    var c, ops := After(names, max, ttl, es[..i]), Works(es[..i]);
    && (forall key, now :: key in names ==> Got(c, key, now).1 in {None, Latest(ops, key)})
    && (forall r: Event, key, now :: r.Reopen? && key in names ==>
          Got(ReopenedAs(c, r), key, now).1 in {None, Latest(ops, key)})
  }

  lemma TrueReads(names: set<string>, c: Cache, ops: seq<Op>, key: string, now: int)
    requires AllTrue(names, c, ops) && key in names
    ensures Got(c, key, now).1 in {None, Latest(ops, key)}
  {
    assert FileTrue(c, ops, key);
  }

  lemma AllTrueReads(names: set<string>, c: Cache, ops: seq<Op>)
    requires AllTrue(names, c, ops)
    ensures forall key, now :: key in names ==> Got(c, key, now).1 in {None, Latest(ops, key)}
    ensures forall r: Event, key, now :: r.Reopen? && key in names ==>
              Got(ReopenedAs(c, r), key, now).1 in {None, Latest(ops, key)}
  {
    forall key, now | key in names ensures Got(c, key, now).1 in {None, Latest(ops, key)} {
      TrueReads(names, c, ops, key, now);
    }
    forall r: Event, key, now | r.Reopen? && key in names
      ensures Got(ReopenedAs(c, r), key, now).1 in {None, Latest(ops, key)}
    {
      ReopenKnows(c, r);
      ShrunkTrue(names, c, ReopenedAs(c, r), ops);
      TrueReads(names, ReopenedAs(c, r), ops, key, now);
    }
  }

  // ---- the wrong file is read ----

  /** A time before everything on the list, so that nothing on it is too old. */
  lemma {:induction false} EarlyEnough(list: seq<Entry>) returns (t: int)
    ensures forall i :: 0 <= i < |list| ==> t <= list[i].createdAt
  {
    t := 0;
    if list != [] {
      var rest := EarlyEnough(list[1..]);
      t := if rest < list[0].createdAt then rest else list[0].createdAt;
      forall i | 0 <= i < |list| ensures t <= list[i].createdAt {
        assert i > 0 ==> list[i] == list[1..][i - 1];
      }
    }
  }

  lemma {:induction false} LoadAllYoung(path: string -> string, entries: seq<Entry>, files: map<string, Bytes>,
                                        now: int)
    requires forall i :: 0 <= i < |entries| ==> now <= entries[i].createdAt
    ensures Load(path, entries, files, now).1 == files
    ensures forall e :: e in Load(path, entries, files, now).0 ==> e in entries
  {
    if entries != [] {
      LoadAllYoung(path, entries[1..], files, now);
    }
  }

  lemma ResurrectedIsRead(c: Cache, op: Op) returns (r: Event)
    requires Resurrects(c, op)
    ensures r.Reopen? && Got(ReopenedAs(AfterDelete(c, op.key, op.saved), r), op.key, r.now).1.Some?
  {
    var t := EarlyEnough(c.saved.value);
    r := Reopen(1, 0, t, true);
    LoadKnows(ContentPath, c.saved.value, c.files, t);
    LoadAllYoung(ContentPath, c.saved.value, c.files, t);
    var d := ReopenedAs(AfterDelete(c, op.key, op.saved), r);
    FindKey(d.list, op.key);
  }

  /** Exactly when reopening is safe under any clock, also one that may run backwards: whoever opens the
      directory at any point of a trace reads the latest bytes or misses, if and only if no delete of a
      key that is on disk but not in memory fails to write the index. */
  lemma ReopenReadsLatestIff(names: set<string>, max: int, ttl: int, es: seq<Event>)
    requires NamesDistinct(ContentPath, names) && max >= 1 && Allowed(es, names)
    ensures (forall i :: 0 <= i <= |es| ==> ReadsLatestAt(names, max, ttl, es, i)) <==>
            (forall i :: 0 <= i < |es| ==> !ResurrectsAt(names, max, ttl, es, i))
  {
    if i :| 0 <= i < |es| && ResurrectsAt(names, max, ttl, es, i) {
      var op := es[i].op;
      var r := ResurrectedIsRead(After(names, max, ttl, es[..i]), op);
      AfterNext(names, max, ttl, es, i);
      LatestNext(Works(es[..i]), op, op.key);
      assert !ReadsLatestAt(names, max, ttl, es, i + 1);
    } else {
      forall i | 0 <= i <= |es| ensures ReadsLatestAt(names, max, ttl, es, i) {
        TraceTrue(names, max, ttl, es, i);
        AllTrueReads(names, After(names, max, ttl, es[..i]), Works(es[..i]));
      }
    }
  }

  // ---- readable indexes are enough ----

  /** What the index lists and has a file is in memory. */
  ghost predicate IndexedIsHeld(c: Cache) {
    c.saved.Some? ==> forall k :: Holds(c.saved.value, k) && ContentPath(k) in c.files ==> Holds(c.list, k)
  }

  lemma DoKeepsHeld(names: set<string>, c: Cache, op: Op)
    requires c.maxEntries >= 1 && IndexedIsHeld(c) && NamesDistinct(ContentPath, names) && Mentions(op, names)
    requires forall k :: Known(c, k) ==> k in names
    ensures IndexedIsHeld(Do(c, op).0)
  {
    match op
    case Get(key, now) => GetFewer(c, key, now);
    case Set(key, content, now, _, _) =>
      PlacedKnows(c, key, |content|, now);
      RemovedFewer(Placed(c, key, |content|, now), key);
    case Delete(key, _) => RemovedFewer(c, key);
    case Prune(now, _) => RemovedAllFewer(c, ExpiredKeys(c, now));
    case Clear(_) =>
  }

  lemma NextKeepsHeld(names: set<string>, c: Cache, ops: seq<Op>, e: Event)
    requires c.maxEntries >= 1 && IndexedIsHeld(c) && NamesDistinct(ContentPath, names) && AllTrue(names, c, ops)
    requires match e case Work(op) => Mentions(op, names) case Reopen(_, _, _, readable) => readable
    ensures IndexedIsHeld(Next(c, e))
    ensures e.Work? ==> !Resurrects(c, e.op)
  {
    match e
    case Work(op) => DoKeepsHeld(names, c, op);
    case Reopen(_, _, _, _) => ReopenKnows(c, e);
  }

  lemma ReadableStep(names: set<string>, max: int, ttl: int, es: seq<Event>, i: nat)
    requires NamesDistinct(ContentPath, names) && max >= 1 && Allowed(es, names) && i < |es|
    requires es[i].Reopen? ==> es[i].readable
    requires IndexedIsHeld(After(names, max, ttl, es[..i]))
    requires AllTrue(names, After(names, max, ttl, es[..i]), Works(es[..i]))
    ensures IndexedIsHeld(After(names, max, ttl, es[..i + 1])) && !ResurrectsAt(names, max, ttl, es, i)
  {
    AfterNext(names, max, ttl, es, i);
    NextKeepsHeld(names, After(names, max, ttl, es[..i]), Works(es[..i]), es[i]);
  }

  lemma {:induction false} ReadableKeepsHeld(names: set<string>, max: int, ttl: int, es: seq<Event>, i: nat)
    requires NamesDistinct(ContentPath, names) && max >= 1 && Allowed(es, names) && i <= |es|
    requires forall j :: 0 <= j < i && es[j].Reopen? ==> es[j].readable
    ensures IndexedIsHeld(After(names, max, ttl, es[..i]))
    ensures forall j :: 0 <= j < i ==> !ResurrectsAt(names, max, ttl, es, j)
  {
    if i > 0 {
      ReadableKeepsHeld(names, max, ttl, es, i - 1);
      TraceTrue(names, max, ttl, es, i - 1);
      ReadableStep(names, max, ttl, es, i - 1);
    }
  }

  /** As long as every reopening can read the index, lookups return the latest bytes or miss, however
      many index writes fail. */
  lemma ReadableReopensReadLatest(names: set<string>, max: int, ttl: int, es: seq<Event>, i: nat)
    requires NamesDistinct(ContentPath, names) && max >= 1 && Allowed(es, names) && i <= |es|
    requires forall j :: 0 <= j < |es| && es[j].Reopen? ==> es[j].readable
    ensures ReadsLatestAt(names, max, ttl, es, i)
  {
    ReadableKeepsHeld(names, max, ttl, es, |es|);
    ReopenReadsLatestIff(names, max, ttl, es);
  }

  /** An unreadable index followed by a failing delete: the deleted bytes come back. */
  lemma UnreadableIndexResurrects(key: string) returns (es: seq<Event>)
    ensures Allowed(es, {key}) && |es| == 3 && ResurrectsAt({key}, 1, 0, es, 2)
  {
    var set_ := Work(Set(key, [1], 0, true, true));
    var open := Reopen(1, 0, 0, false);
    es := [set_, open, Work(Delete(key, false))];
    assert Allowed(es, {key});
    assert es[..0] == [];
    AfterNext({key}, 1, 0, es, 0);
    AfterNext({key}, 1, 0, es, 1);
    var c1 := After({key}, 1, 0, es[..1]);
    assert c1.list == [Entry(key, key, 1, 0, 0)] && c1.saved == Some(c1.list);
    assert c1.list[0].key == key && ContentPath(key) in c1.files;
  }
}
