/** A cache that is closed and reopened, possibly with another capacity, still refines a bounded map, as
    long as the index can be written and read. Reopening then forgets only the lookups since the last index
    write and the cells that are older than the default time to live. */
module CacheSessions {
  import opened Common
  import opened CacheModel
  import opened CacheRefinement
  import opened CacheHistory
  import opened CachePersist
  import opened CacheReopen

  // ---- the specification ----

  /** A bounded map, and when each key had last been touched when the index was last written. */
  datatype DurableMap = DurableMap(live: BMap, marks: map<string, nat>)

  /** The operations that write the index. */
  predicate WritesMarks(b: BMap, op: Op) {
    match op
    case Set(_, _, _, written, _) => written
    case Delete(_, _) => true
    case Prune(now, _) => exists k :: k in b.cells && Stale(b, k, now)
    case _ => false
  }

  function MarksOf(cells: map<string, Cell>): map<string, nat> {
    map k | k in cells :: cells[k].touched
  }

  /** The cells that survive reopening, with the recency they had when the index was last written. */
  function Survivors(d: DurableMap, now: int): map<string, Cell> {
    map k | k in d.live.cells && k in d.marks && now - d.live.cells[k].born <= DEFAULT_TTL
      :: d.live.cells[k].(touched := d.marks[k])
  }

  ghost function DurableNext(d: DurableMap, e: Event): DurableMap {
    match e
    case Work(op) =>
      var b := BDo(d.live, op).0;
      DurableMap(b, if WritesMarks(d.live, op) then MarksOf(b.cells) else d.marks)
    case Reopen(max, ttl, now, _) =>
      d.(live := BMap(max, ttl, Survivors(d, now), d.live.clock))
  }

  ghost function DurableAfter(max: int, ttl: int, es: seq<Event>): DurableMap
    decreases |es|
  {
    if es == [] then DurableMap(EmptyMap(max, ttl), map[])
    else DurableNext(DurableAfter(max, ttl, es[..|es| - 1]), es[|es| - 1])
  }

  /** Index writes succeed, and so does reading the index. */
  predicate Reliable(e: Event) {
    match e
    case Work(op) =>
      (match op
       case Set(_, _, _, _, saved) => saved
       case Delete(_, saved) => saved
       case Prune(_, saved) => saved
       case _ => true)
    case Reopen(_, _, _, readable) => readable
  }

  // ---- the relation ----

  /** Every file belongs to a key in memory. */
  ghost predicate NoStrayFile(c: Cache) {
    forall p :: p in c.files ==> exists k :: Holds(c.list, k) && ContentPath(k) == p
  }

  /** The index lists the cells `ix` as they were when the files were `fs`. What is still in memory is
      unchanged since then, but for its recency. */
  ghost predicate IndexRel(names: set<string>, index: seq<Entry>, d: DurableMap, ix: map<string, Cell>,
                           fs: map<string, Bytes>)
  {
    && ListRel(ContentPath, index, fs, ix, d.live.clock) && ix.Keys <= names
    && forall k :: k in d.live.cells ==>
         k in ix && k in d.marks && ix[k] == d.live.cells[k].(touched := d.marks[k])
  }

  ghost predicate DurableRel(names: set<string>, c: Cache, d: DurableMap, ix: map<string, Cell>,
                             fs: map<string, Bytes>)
  {
    && Rel(names, c, d.live) && NoStrayFile(c)
    && (if c.saved.Some? then IndexRel(names, c.saved.value, d, ix, fs) else d.live.cells == map[])
  }

  ghost predicate Durable(names: set<string>, c: Cache, d: DurableMap) {
    exists ix, fs :: DurableRel(names, c, d, ix, fs)
  }

  // ---- no stray files ----

  /** A file that is left belongs to a key that is left. */
  lemma FewerStray(c: Cache, d: Cache)
    requires NoStrayFile(c) && FewerFiles(c, d)
    requires forall k :: Holds(c.list, k) && ContentPath(k) in d.files ==> Holds(d.list, k)
    ensures NoStrayFile(d)
  {
    forall p | p in d.files ensures exists k :: Holds(d.list, k) && ContentPath(k) == p {
      var k :| Holds(c.list, k) && ContentPath(k) == p;
      assert Holds(d.list, k);
    }
  }

  lemma SetNoStray(c: Cache, key: string, content: Bytes, now: int, written: bool, saved: bool)
    requires c.maxEntries >= 1 && NoStrayFile(c)
    ensures NoStrayFile(AfterSet(c, key, content, now, written, saved))
  {
    var placed := Placed(c, key, |content|, now);
    PlacedKnows(c, key, |content|, now);
    FewerStray(c, placed);
    RemovedFewer(placed, key);
    if written {
      var d := AfterSet(c, key, content, now, written, saved);
      forall p | p in d.files ensures exists k :: Holds(d.list, k) && ContentPath(k) == p {
        if p == ContentPath(key) {
          assert Holds(d.list, key);
        } else {
          var k :| Holds(placed.list, k) && ContentPath(k) == p;
          assert Holds(d.list, k);
        }
      }
    } else {
      FewerStray(placed, Removed(placed, key));
    }
  }

  lemma DoNoStray(c: Cache, op: Op)
    requires c.maxEntries >= 1 && NoStrayFile(c)
    ensures NoStrayFile(Do(c, op).0)
  {
    match op
    case Get(key, now) =>
      GetFewer(c, key, now);
      FewerStray(c, Do(c, op).0);
    case Set(key, content, now, written, saved) => SetNoStray(c, key, content, now, written, saved);
    case Delete(key, _) =>
      RemovedFewer(c, key);
      FewerStray(c, Do(c, op).0);
    case Prune(now, _) =>
      RemovedAllFewer(c, ExpiredKeys(c, now));
      FewerStray(c, Do(c, op).0);
    case Clear(_) =>
  }

  // ---- operations ----

  /** An operation that writes the index writes the list it leaves. */
  lemma WritesTheList(names: set<string>, c: Cache, b: BMap, op: Op)
    requires Rel(names, c, b) && Reliable(Work(op)) && WritesMarks(b, op)
    ensures Do(c, op).0.saved == Some(Do(c, op).0.list)
  {
    if op.Prune? {
      ExpiredAreStale(names, c, b, op.now);
      var k :| k in b.cells && Stale(b, k, op.now);
      assert k in ExpiredKeys(c, op.now);
    }
  }

  lemma KeepsTheIndex(names: set<string>, c: Cache, b: BMap, op: Op)
    requires Rel(names, c, b) && !WritesMarks(b, op)
    ensures Do(c, op).0.saved == c.saved || (op.Clear? && op.listed)
  {
    if op.Set? {
      PlacedKnows(c, op.key, |op.content|, op.now);
    }
    if op.Prune? {
      ExpiredAreStale(names, c, b, op.now);
      assert ExpiredKeys(c, op.now) == {};
    }
  }

  /** What an operation that does not write the index leaves in the map was there before. */
  lemma UnmarkedKeepsCells(b: BMap, op: Op, k: string)
    requires !WritesMarks(b, op) && k in BDo(b, op).0.cells
    ensures k in b.cells && BDo(b, op).0.cells[k] == b.cells[k].(touched := BDo(b, op).0.cells[k].touched)
  {
    StepPresence(b, op, k);
    StepContent(b, op, k);
  }

  lemma IndexStays(names: set<string>, index: seq<Entry>, d: DurableMap, op: Op, ix: map<string, Cell>,
                   fs: map<string, Bytes>)
    requires IndexRel(names, index, d, ix, fs) && !WritesMarks(d.live, op)
    ensures IndexRel(names, index, DurableNext(d, Work(op)), ix, fs)
  {
    LaterRel(ContentPath, index, fs, ix, d.live.clock);
    forall k | k in BDo(d.live, op).0.cells
      ensures k in ix && k in d.marks && ix[k] == BDo(d.live, op).0.cells[k].(touched := d.marks[k])
    {
      UnmarkedKeepsCells(d.live, op, k);
    }
  }

  lemma WorkDurable(names: set<string>, c: Cache, d: DurableMap, op: Op)
    requires NamesDistinct(ContentPath, names) && Mentions(op, names) && Reliable(Work(op)) && Durable(names, c, d)
    ensures Durable(names, Do(c, op).0, DurableNext(d, Work(op))) && Do(c, op).1 == BDo(d.live, op).1
  {
    var ix, fs :| DurableRel(names, c, d, ix, fs);
    var c', d' := Do(c, op).0, DurableNext(d, Work(op));
    DoRefines(names, c, d.live, op);
    DoNoStray(c, op);
    if WritesMarks(d.live, op) {
      WritesTheList(names, c, d.live, op);
      assert DurableRel(names, c', d', d'.live.cells, c'.files);
    } else {
      KeepsTheIndex(names, c, d.live, op);
      if c'.saved.Some? {
        IndexStays(names, c.saved.value, d, op, ix, fs);
      } else {
        UnindexedStaysEmpty(d.live, op);
      }
      assert DurableRel(names, c', d', ix, fs);
    }
  }

  lemma UnindexedStaysEmpty(b: BMap, op: Op)
    requires !WritesMarks(b, op) && (b.cells == map[] || (op.Clear? && op.listed))
    ensures BDo(b, op).0.cells == map[]
  {
    if !op.Clear? {
      forall k ensures k !in BDo(b, op).0.cells {
        if k in BDo(b, op).0.cells {
          UnmarkedKeepsCells(b, op, k);
        }
      }
    }
  }

  // ---- reopening ----

  /** Loading keeps everything but the given keys. */
  lemma {:induction false} KeptIsWithout(path: string -> string, entries: seq<Entry>, files: map<string, Bytes>,
                                         now: int, gone: set<string>)
    requires forall i :: 0 <= i < |entries| ==>
               (entries[i].key in gone <==> TooOld(entries[i], now) || path(entries[i].key) !in files)
    ensures Kept(path, entries, files, now) == WithoutAll(entries, gone)
  {
    if entries != [] {
      KeptIsWithout(path, entries[1..], files, now, gone);
    }
  }

  /** Only the files of the cells matter. */
  lemma RefileRel(path: string -> string, list: seq<Entry>, fs: map<string, Bytes>, files: map<string, Bytes>,
                  cells: map<string, Cell>, clock: nat)
    requires ListRel(path, list, fs, cells, clock)
    requires forall k :: k in cells ==> path(k) in files && files[path(k)] == cells[k].bytes
    ensures ListRel(path, list, files, cells, clock)
  {
    forall i | 0 <= i < |list| ensures EntryRel(path, list[i], files, cells, clock) {
      assert EntryRel(path, list[i], fs, cells, clock);
    }
  }

  /** In memory means: there is a file. */
  lemma LiveHasFile(names: set<string>, c: Cache, b: BMap, k: string)
    requires NamesDistinct(ContentPath, names) && Rel(names, c, b) && NoStrayFile(c) && k in names
    ensures k in b.cells <==> ContentPath(k) in c.files
    ensures k in b.cells ==> c.files[ContentPath(k)] == b.cells[k].bytes
  {
    RelKeys(ContentPath, c.list, c.files, b.cells, b.clock);
    if k in b.cells {
      HeldEntry(names, c, b, k);
    }
  }

  /** The keys of the index that reopening drops. */
  function Dropped(d: DurableMap, ix: map<string, Cell>, now: int): set<string> {
    set k | k in ix && (k !in d.live.cells || now - ix[k].born > DEFAULT_TTL)
  }

  lemma SurvivorsAre(names: set<string>, index: seq<Entry>, d: DurableMap, ix: map<string, Cell>,
                     fs: map<string, Bytes>, now: int)
    requires IndexRel(names, index, d, ix, fs)
    ensures Survivors(d, now) == ix - Dropped(d, ix, now)
  {
  }

  lemma DroppedAreNotKept(names: set<string>, c: Cache, d: DurableMap, ix: map<string, Cell>,
                          fs: map<string, Bytes>, now: int)
    requires NamesDistinct(ContentPath, names) && DurableRel(names, c, d, ix, fs) && c.saved.Some?
    ensures Kept(ContentPath, c.saved.value, c.files, now) == WithoutAll(c.saved.value, Dropped(d, ix, now))
  {
    var entries := c.saved.value;
    forall i | 0 <= i < |entries|
      ensures entries[i].key in Dropped(d, ix, now) <==>
                TooOld(entries[i], now) || ContentPath(entries[i].key) !in c.files
    {
      assert EntryRel(ContentPath, entries[i], fs, ix, d.live.clock);
      LiveHasFile(names, c, d.live, entries[i].key);
    }
    KeptIsWithout(ContentPath, entries, c.files, now, Dropped(d, ix, now));
  }

  /** What loading leaves on disk for the survivors. */
  lemma SurvivorsHaveFiles(names: set<string>, c: Cache, d: DurableMap, ix: map<string, Cell>,
                           fs: map<string, Bytes>, now: int, k: string)
    requires NamesDistinct(ContentPath, names) && DurableRel(names, c, d, ix, fs) && c.saved.Some?
    requires k in Survivors(d, now)
    ensures var left := c.files - OldPaths(ContentPath, c.saved.value, now);
            ContentPath(k) in left && left[ContentPath(k)] == Survivors(d, now)[k].bytes
  {
    LiveHasFile(names, c, d.live, k);
    var entries := c.saved.value;
    forall i | 0 <= i < |entries| ensures ContentPath(entries[i].key) != ContentPath(k) || !TooOld(entries[i], now) {
      assert EntryRel(ContentPath, entries[i], fs, ix, d.live.clock);
    }
    OldPathsAre(ContentPath, entries, now, ContentPath(k));
  }

  lemma IndexPathsDistinct(names: set<string>, index: seq<Entry>, d: DurableMap, ix: map<string, Cell>,
                           fs: map<string, Bytes>)
    requires NamesDistinct(ContentPath, names) && IndexRel(names, index, d, ix, fs)
    ensures PathsDistinct(ContentPath, index)
  {
    RelKeys(ContentPath, index, fs, ix, d.live.clock);
    forall i | 0 <= i < |index| ensures index[i].key in names {
      assert EntryRel(ContentPath, index[i], fs, ix, d.live.clock);
    }
    NamesMakePathsDistinct(ContentPath, names, index);
  }

  /** Reopening leaves exactly the survivors in the list, with their files. */
  lemma LoadedRel(names: set<string>, c: Cache, d: DurableMap, ix: map<string, Cell>, fs: map<string, Bytes>, now: int)
    requires NamesDistinct(ContentPath, names) && DurableRel(names, c, d, ix, fs) && c.saved.Some?
    ensures var (list, files) := Load(ContentPath, c.saved.value, c.files, now);
            ListRel(ContentPath, list, files, Survivors(d, now), d.live.clock)
  {
    var index, gone := c.saved.value, Dropped(d, ix, now);
    IndexPathsDistinct(names, index, d, ix, fs);
    LoadKeeps(ContentPath, index, c.files, now);
    DroppedAreNotKept(names, c, d, ix, fs, now);
    DropAllRel(ContentPath, names, index, fs, ix, d.live.clock, gone);
    SurvivorsAre(names, index, d, ix, fs, now);
    var left := c.files - OldPaths(ContentPath, index, now);
    forall k | k in Survivors(d, now)
      ensures ContentPath(k) in left && left[ContentPath(k)] == Survivors(d, now)[k].bytes
    {
      SurvivorsHaveFiles(names, c, d, ix, fs, now, k);
    }
    RefileRel(ContentPath, WithoutAll(index, gone), fs - Images(ContentPath, gone), left, Survivors(d, now),
              d.live.clock);
  }

  lemma ReopenNoStray(names: set<string>, c: Cache, d: DurableMap, ix: map<string, Cell>, fs: map<string, Bytes>,
                      e: Event)
    requires NamesDistinct(ContentPath, names) && DurableRel(names, c, d, ix, fs) && c.saved.Some?
    requires e.Reopen? && e.readable
    ensures NoStrayFile(ReopenedAs(c, e))
  {
    ReopenKnows(c, e);
    var r := ReopenedAs(c, e);
    forall k | Holds(c.list, k) && ContentPath(k) in r.files ensures Holds(r.list, k) {
      HeldEntry(names, c, d.live, k);
      RelKeys(ContentPath, c.saved.value, fs, ix, d.live.clock);
    }
    FewerStray(c, r);
  }

  lemma ReopenDurable(names: set<string>, c: Cache, d: DurableMap, e: Event)
    requires NamesDistinct(ContentPath, names) && Durable(names, c, d) && e.Reopen? && e.readable && e.maxEntries >= 1
    ensures Durable(names, ReopenedAs(c, e), DurableNext(d, e))
  {
    var ix, fs :| DurableRel(names, c, d, ix, fs);
    var r, d' := ReopenedAs(c, e), DurableNext(d, e);
    if c.saved.Some? {
      LoadedRel(names, c, d, ix, fs, e.now);
      ReopenNoStray(names, c, d, ix, fs, e);
      assert IndexRel(names, c.saved.value, d', ix, fs);
    } else {
      assert c.list == [];
      assert Survivors(d, e.now) == map[];
      assert c.files == map[] by {
        assert forall k :: !Holds(c.list, k);
      }
    }
    assert DurableRel(names, r, d', ix, fs);
  }

  // ---- whole traces ----

  lemma {:induction false} TraceDurable(names: set<string>, max: int, ttl: int, es: seq<Event>)
    requires NamesDistinct(ContentPath, names) && max >= 1 && Allowed(es, names)
    requires forall i :: 0 <= i < |es| ==> Reliable(es[i])
    ensures Durable(names, After(names, max, ttl, es), DurableAfter(max, ttl, es))
    decreases |es|
  {
    if es == [] {
      assert DurableRel(names, Empty(max, ttl), DurableAfter(max, ttl, es), map[], map[]);
    } else {
      var init, e := es[..|es| - 1], es[|es| - 1];
      TraceDurable(names, max, ttl, init);
      assert Reliable(e);
      var c, d := After(names, max, ttl, init), DurableAfter(max, ttl, init);
      match e
      case Work(op) => WorkDurable(names, c, d, op);
      case Reopen(_, _, _, _) => ReopenDurable(names, c, d, e);
    }
  }

  /** Over every trace of operations and reopenings, under any capacities and times to live, in which the
      index can be written and read, the cache stands for the durable map, and the next operation returns
      what the map returns. */
  lemma SessionsRefineMap(names: set<string>, max: int, ttl: int, es: seq<Event>, op: Op)
    requires NamesDistinct(ContentPath, names) && max >= 1 && Allowed(es, names) && Mentions(op, names)
    requires forall i :: 0 <= i < |es| ==> Reliable(es[i])
    ensures var c, b := After(names, max, ttl, es), DurableAfter(max, ttl, es).live;
            Rel(names, c, b) && Do(c, op).1 == BDo(b, op).1
  {
    TraceDurable(names, max, ttl, es);
    var c, d := After(names, max, ttl, es), DurableAfter(max, ttl, es);
    var ix, fs :| DurableRel(names, c, d, ix, fs);
    DoRefines(names, c, d.live, op);
  }
}
