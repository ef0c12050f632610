/** The disk cache refines a bounded map with least-recently-used eviction: no list, no files, no
    file names. */
module CacheRefinement {
  import opened Common
  import opened CacheModel
  import opened CacheLists

  // ---- the specification ----

  /** `born` is when the key was set after last being absent; `touched` numbers the operation that
      last set or hit it. */
  datatype Cell = Cell(bytes: Bytes, born: int, touched: nat)

  datatype BMap = BMap(max: int, ttl: int, cells: map<string, Cell>, clock: nat)

  predicate Stale(b: BMap, key: string, now: int) {
    key in b.cells && now - b.cells[key].born > b.ttl
  }

  /** Touched no later than any other key. */
  predicate Oldest(cells: map<string, Cell>, key: string) {
    key in cells && forall k :: k in cells ==> cells[key].touched <= cells[k].touched
  }

  /** The keys touched after `key`. */
  function Newer(cells: map<string, Cell>, key: string): set<string>
    requires key in cells
  {
    set k | k in cells && cells[k].touched > cells[key].touched
  }

  /** The map is full, and there is no room for `key` beside a new key: at least `max - 1` keys were
      touched after it. In a map of exactly `max` keys that is the oldest key. */
  predicate Crowded(cells: map<string, Cell>, max: int, key: string) {
    key in cells && |cells| >= max && |Newer(cells, key)| >= max - 1
  }

  function MakeRoom(cells: map<string, Cell>, max: int): map<string, Cell> {
    map k | k in cells && !Crowded(cells, max, k) :: cells[k]
  }

  function BPlaced(b: BMap, key: string, content: Bytes, now: int): map<string, Cell> {
    if key in b.cells then b.cells[key := Cell(content, b.cells[key].born, b.clock)]
    else MakeRoom(b.cells, b.max)[key := Cell(content, now, b.clock)]
  }

  function BDo(b: BMap, op: Op): (BMap, Option<Bytes>) {
    var b' := b.(clock := b.clock + 1);
    match op
    case Get(key, now) =>
      if key !in b.cells then (b', None)
      else if Stale(b, key, now) then (b'.(cells := b.cells - {key}), None)
      else (b'.(cells := b.cells[key := b.cells[key].(touched := b.clock)]), Some(b.cells[key].bytes))
    case Set(key, content, now, written, _) =>
      var placed := BPlaced(b, key, content, now);
      (b'.(cells := if written then placed else placed - {key}), None)
    case Delete(key, _) => (b'.(cells := b.cells - {key}), None)
    case Prune(now, _) => (b'.(cells := map k | k in b.cells && !Stale(b, k, now) :: b.cells[k]), None)
    case Clear(listed) => (b'.(cells := if listed then map[] else b.cells), None)
  }

  // ---- the relation ----

  /** No two keys in use share a file name. The lemmas about lists take the naming function as a
      parameter, so that they depend on nothing else about it. */
  ghost predicate NamesDistinct(path: string -> string, names: set<string>) {
    forall a, b :: a in names && b in names && path(a) == path(b) ==> a == b
  }

  ghost predicate EntryRel(path: string -> string, e: Entry, files: map<string, Bytes>, cells: map<string, Cell>,
                           clock: nat)
  {
    && e.key in cells
    && cells[e.key].touched < clock
    && cells[e.key].born == e.createdAt
    && e.size == |cells[e.key].bytes| && e.digest == e.key
    && path(e.key) in files && files[path(e.key)] == cells[e.key].bytes
  }

  ghost predicate EntriesRel(path: string -> string, list: seq<Entry>, files: map<string, Bytes>,
                             cells: map<string, Cell>, clock: nat)
  {
    forall i :: 0 <= i < |list| ==> EntryRel(path, list[i], files, cells, clock)
  }

  /** More recently touched keys come first. */
  ghost predicate Ordered(list: seq<Entry>, cells: map<string, Cell>) {
    forall i, j :: 0 <= i < j < |list| && list[i].key in cells && list[j].key in cells ==>
      cells[list[i].key].touched > cells[list[j].key].touched
  }

  ghost predicate Covers(list: seq<Entry>, cells: map<string, Cell>) {
    |list| == |cells| && forall k :: k in cells ==> Holds(list, k)
  }

  ghost predicate ListRel(path: string -> string, list: seq<Entry>, files: map<string, Bytes>,
                          cells: map<string, Cell>, clock: nat)
  {
    EntriesRel(path, list, files, cells, clock) && Ordered(list, cells) && Covers(list, cells)
  }

  ghost predicate Rel(names: set<string>, c: Cache, b: BMap) {
    && c.maxEntries == b.max >= 1 && c.ttl == b.ttl
    && ListRel(ContentPath, c.list, c.files, b.cells, b.clock)
    && b.cells.Keys <= names
  }

  predicate Mentions(op: Op, names: set<string>) {
    match op
    case Get(key, _) => key in names
    case Set(key, _, _, _, _) => key in names
    case Delete(key, _) => key in names
    case _ => true
  }

  lemma RelKeys(path: string -> string, list: seq<Entry>, files: map<string, Bytes>, cells: map<string, Cell>,
                clock: nat)
    requires ListRel(path, list, files, cells, clock)
    ensures DistinctKeys(list)
    ensures forall k :: k in cells <==> Holds(list, k)
  {
  }

  // ---- dropping a key ----

  lemma DropCovers(list: seq<Entry>, cells: map<string, Cell>, p: nat)
    requires Covers(list, cells) && DistinctKeys(list) && p < |list| && list[p].key in cells
    ensures Covers(list[..p] + list[p + 1..], cells - {list[p].key})
  {
    var rest, cells' := list[..p] + list[p + 1..], cells - {list[p].key};
    forall k | k in cells' ensures Holds(rest, k) {
      var j := Position(list, k);
      assert rest[if j < p then j else j - 1] == list[j];
    }
    assert cells'.Keys == cells.Keys - {list[p].key};
  }

  lemma DropOrdered(list: seq<Entry>, cells: map<string, Cell>, p: nat)
    requires Ordered(list, cells) && p < |list|
    ensures Ordered(list[..p] + list[p + 1..], cells - {list[p].key})
  {
  }

  lemma DropRel(path: string -> string, names: set<string>, list: seq<Entry>, files: map<string, Bytes>,
                cells: map<string, Cell>, clock: nat, key: string)
    requires NamesDistinct(path, names) && cells.Keys <= names
    requires ListRel(path, list, files, cells, clock) && key in cells
    ensures ListRel(path, Without(list, key), files - {path(key)}, cells - {key}, clock)
  {
    RelKeys(path, list, files, cells, clock);
    var p := Position(list, key);
    WithoutAt(list, key, p);
    DropCovers(list, cells, p);
    DropOrdered(list, cells, p);
    DropEntries(path, names, list, files, cells, clock, p);
  }

  lemma DropEntries(path: string -> string, names: set<string>, list: seq<Entry>, files: map<string, Bytes>,
                    cells: map<string, Cell>, clock: nat, p: nat)
    requires NamesDistinct(path, names) && cells.Keys <= names
    requires EntriesRel(path, list, files, cells, clock) && DistinctKeys(list) && p < |list|
    ensures EntriesRel(path, list[..p] + list[p + 1..], files - {path(list[p].key)}, cells - {list[p].key}, clock)
  {
  }

  // ---- putting a key in front ----

  lemma PushCovers(list: seq<Entry>, cells: map<string, Cell>, e: Entry, cell: Cell)
    requires Covers(list, cells) && e.key !in cells
    ensures Covers([e] + list, cells[e.key := cell])
  {
    var list' := [e] + list;
    assert list'[0].key == e.key;
    forall k | k in cells ensures Holds(list', k) {
      var j := Position(list, k);
      assert list'[j + 1].key == k;
    }
    assert cells[e.key := cell].Keys == cells.Keys + {e.key};
  }

  lemma PushEntries(path: string -> string, names: set<string>, list: seq<Entry>, files: map<string, Bytes>,
                    cells: map<string, Cell>, clock: nat, e: Entry, bytes: Bytes)
    requires NamesDistinct(path, names) && e.key in names && cells.Keys <= names
    requires EntriesRel(path, list, files, cells, clock) && e.key !in cells && e.size == |bytes| && e.digest == e.key
    ensures EntriesRel(path, [e] + list, files[path(e.key) := bytes],
                       cells[e.key := Cell(bytes, e.createdAt, clock)], clock + 1)
  {
    var list', files' := [e] + list, files[path(e.key) := bytes];
    var cells' := cells[e.key := Cell(bytes, e.createdAt, clock)];
    forall i | 0 <= i < |list'| ensures EntryRel(path, list'[i], files', cells', clock + 1) {
      if i > 0 {
        assert EntryRel(path, list[i - 1], files, cells, clock);
      }
    }
  }

  lemma PushOrdered(path: string -> string, list: seq<Entry>, files: map<string, Bytes>, cells: map<string, Cell>,
                    clock: nat, e: Entry, cell: Cell)
    requires EntriesRel(path, list, files, cells, clock) && Ordered(list, cells)
    requires e.key !in cells && cell.touched == clock
    ensures Ordered([e] + list, cells[e.key := cell])
  {
    var list' := [e] + list;
    forall i | 0 < i < |list'|
      ensures list'[i] == list[i - 1] && list'[i].key in cells && cells[list'[i].key].touched < clock
    {
      assert EntryRel(path, list[i - 1], files, cells, clock);
    }
  }

  /** A key that is not on the list goes to the front with the newest touch. */
  lemma PushRel(path: string -> string, names: set<string>, list: seq<Entry>, files: map<string, Bytes>,
                cells: map<string, Cell>, clock: nat, e: Entry, bytes: Bytes)
    requires NamesDistinct(path, names) && e.key in names && cells.Keys <= names
    requires ListRel(path, list, files, cells, clock) && e.key !in cells && e.size == |bytes| && e.digest == e.key
    ensures ListRel(path, [e] + list, files[path(e.key) := bytes],
                    cells[e.key := Cell(bytes, e.createdAt, clock)], clock + 1)
  {
    var cell := Cell(bytes, e.createdAt, clock);
    PushCovers(list, cells, e, cell);
    PushOrdered(path, list, files, cells, clock, e, cell);
    PushEntries(path, names, list, files, cells, clock, e, bytes);
  }

  lemma RemoveThenPut<V>(m: map<string, V>, k: string, v: V)
    ensures (m - {k})[k := v] == m[k := v]
  {
  }

  /** A key on the list moves to the front: drop it, then push it. */
  lemma MoveRel(path: string -> string, names: set<string>, list: seq<Entry>, files: map<string, Bytes>,
                cells: map<string, Cell>, clock: nat, e: Entry, bytes: Bytes)
    requires NamesDistinct(path, names) && cells.Keys <= names
    requires ListRel(path, list, files, cells, clock) && e.key in cells && e.size == |bytes| && e.digest == e.key
    ensures ListRel(path, [e] + Without(list, e.key), files[path(e.key) := bytes],
                    cells[e.key := Cell(bytes, e.createdAt, clock)], clock + 1)
  {
    var cell := Cell(bytes, e.createdAt, clock);
    RemoveThenPut(files, path(e.key), bytes);
    RemoveThenPut(cells, e.key, cell);
    DropRel(path, names, list, files, cells, clock, e.key);
    PushRel(path, names, Without(list, e.key), files - {path(e.key)}, cells - {e.key}, clock, e, bytes);
  }

  lemma LaterRel(path: string -> string, list: seq<Entry>, files: map<string, Bytes>, cells: map<string, Cell>,
                 clock: nat)
    requires ListRel(path, list, files, cells, clock)
    ensures ListRel(path, list, files, cells, clock + 1)
  {
  }

  // ---- eviction ----

  /** The back of the list is the oldest key, and the only one. */
  lemma BackIsOldest(path: string -> string, list: seq<Entry>, files: map<string, Bytes>, cells: map<string, Cell>,
                     clock: nat, k: string)
    requires ListRel(path, list, files, cells, clock) && list != [] && k in cells
    ensures Oldest(cells, k) <==> k == list[|list| - 1].key
  {
    var last := |list| - 1;
    assert EntryRel(path, list[last], files, cells, clock);
    var p := Position(list, k);
    forall x | x in cells ensures cells[list[last].key].touched <= cells[x].touched {
      var q := Position(list, x);
    }
  }

  lemma NewerWithoutOldest(cells: map<string, Cell>, key: string, k: string)
    requires Oldest(cells, key) && k in cells && k != key
    ensures Newer(cells - {key}, k) == Newer(cells, k) && |Newer(cells, k)| <= |cells| - 2
  {
    var others := cells.Keys - {key, k};
    assert Newer(cells, k) <= others;
    SubsetSize(Newer(cells, k), others);
  }

  lemma SubsetSize(a: set<string>, b: set<string>)
    requires a <= b
    ensures |a| <= |b|
  {
    assert b == a + (b - a);
  }

  /** All others are newer than the only oldest key. */
  lemma NewerThanOldest(cells: map<string, Cell>, key: string)
    requires forall k :: k in cells ==> (Oldest(cells, k) <==> k == key)
    requires key in cells
    ensures Newer(cells, key) == cells.Keys - {key} && |Newer(cells, key)| == |cells| - 1
  {
    forall k | k in cells && k != key ensures cells[k].touched > cells[key].touched {
      assert Oldest(cells, key) && !Oldest(cells, k);
    }
  }

  /** Making room in a full map drops its oldest key first. */
  lemma RoomByOldest(cells: map<string, Cell>, key: string, max: int)
    requires key in cells && |cells| >= max >= 1
    requires forall k :: k in cells ==> (Oldest(cells, k) <==> k == key)
    ensures MakeRoom(cells, max) == MakeRoom(cells - {key}, max)
  {
    var fewer := cells - {key};
    NewerThanOldest(cells, key);
    assert fewer.Keys == cells.Keys - {key};
    forall k | k in fewer ensures Crowded(cells, max, k) <==> Crowded(fewer, max, k) {
      NewerWithoutOldest(cells, key, k);
    }
  }

  lemma BackFacts(path: string -> string, list: seq<Entry>, files: map<string, Bytes>, cells: map<string, Cell>,
                  clock: nat, max: int)
    requires ListRel(path, list, files, cells, clock) && |list| >= max >= 1
    ensures var key := list[|list| - 1].key;
            key in cells && MakeRoom(cells, max) == MakeRoom(cells - {key}, max)
  {
    var key := list[|list| - 1].key;
    assert EntryRel(path, list[|list| - 1], files, cells, clock);
    forall k | k in cells ensures Oldest(cells, k) <==> k == key {
      BackIsOldest(path, list, files, cells, clock, k);
    }
    RoomByOldest(cells, key, max);
  }

  lemma MakeRoomKeys(cells: map<string, Cell>, max: int)
    ensures MakeRoom(cells, max).Keys <= cells.Keys
    ensures |cells| < max ==> MakeRoom(cells, max) == cells
  {
  }

  lemma BackRemovedShape(c: Cache)
    requires c.list != []
    ensures var key := c.list[|c.list| - 1].key;
            && BackRemoved(c) == c.(list := Without(c.list, key), files := c.files - {ContentPath(key)})
            && |BackRemoved(c).list| < |c.list|
  {
    WithoutShrinks(c.list, c.list[|c.list| - 1].key);
  }

  /** One round of eviction. */
  lemma EvictRoundRel(names: set<string>, c: Cache, cells: map<string, Cell>, clock: nat)
    requires NamesDistinct(ContentPath, names) && cells.Keys <= names && c.list != []
    requires ListRel(ContentPath, c.list, c.files, cells, clock)
    ensures ListRel(ContentPath, BackRemoved(c).list, BackRemoved(c).files, cells - {c.list[|c.list| - 1].key}, clock)
  {
    var key := c.list[|c.list| - 1].key;
    BackRemovedShape(c);
    assert EntryRel(ContentPath, c.list[|c.list| - 1], c.files, cells, clock);
    DropRel(ContentPath, names, c.list, c.files, cells, clock, key);
  }

  /** Dropping entries from the back until there is room keeps exactly the cells that are not crowded. */
  lemma {:induction false} EvictRel(names: set<string>, c: Cache, cells: map<string, Cell>, clock: nat)
    requires NamesDistinct(ContentPath, names) && cells.Keys <= names && c.maxEntries >= 1
    requires ListRel(ContentPath, c.list, c.files, cells, clock)
    ensures ListRel(ContentPath, Evicted(c).list, Evicted(c).files, MakeRoom(cells, c.maxEntries), clock)
    decreases |c.list|
  {
    if |c.list| >= c.maxEntries {
      BackFacts(ContentPath, c.list, c.files, cells, clock, c.maxEntries);
      BackRemovedShape(c);
      EvictRoundRel(names, c, cells, clock);
      EvictRel(names, BackRemoved(c), cells - {c.list[|c.list| - 1].key}, clock);
      EvictUnfolds(c);
    } else {
      MakeRoomKeys(cells, c.maxEntries);
    }
  }

  // ---- one operation ----

  lemma RemoveAbsent<V>(m: map<string, V>, k: string)
    requires k !in m
    ensures m - {k} == m
  {
  }

  lemma RemoveRefines(names: set<string>, c: Cache, b: BMap, key: string)
    requires NamesDistinct(ContentPath, names) && Rel(names, c, b)
    ensures Rel(names, Removed(c, key), b.(cells := b.cells - {key}, clock := b.clock + 1))
  {
    RelKeys(ContentPath, c.list, c.files, b.cells, b.clock);
    LaterRel(ContentPath, c.list, c.files, b.cells, b.clock);
    WithoutShrinks(c.list, key);
    if key in b.cells {
      DropRel(ContentPath, names, c.list, c.files, b.cells, b.clock + 1, key);
    } else {
      RemoveAbsent(b.cells, key);
    }
  }

  /** What the relation says about the entry of a held key. */
  lemma HeldEntry(names: set<string>, c: Cache, b: BMap, key: string)
    requires Rel(names, c, b) && Holds(c.list, key)
    ensures EntryRel(ContentPath, Find(c.list, key), c.files, b.cells, b.clock) && Find(c.list, key).key == key
  {
    RelKeys(ContentPath, c.list, c.files, b.cells, b.clock);
    var p := Position(c.list, key);
    WithoutAt(c.list, key, p);
    assert EntryRel(ContentPath, c.list[p], c.files, b.cells, b.clock);
  }

  /** A hit: the file holds the cell's bytes, and the key moves to the front. */
  lemma HitRefines(names: set<string>, c: Cache, b: BMap, key: string, now: int)
    requires NamesDistinct(ContentPath, names) && Rel(names, c, b)
    requires Holds(c.list, key) && key in b.cells && !Stale(b, key, now)
    ensures Rel(names, Got(c, key, now).0,
                b.(cells := b.cells[key := b.cells[key].(touched := b.clock)], clock := b.clock + 1))
    ensures Got(c, key, now).1 == Some(b.cells[key].bytes)
  {
    HeldEntry(names, c, b, key);
    WithoutShrinks(c.list, key);
    var e, bytes := Find(c.list, key).(accessedAt := now), b.cells[key].bytes;
    MoveRel(ContentPath, names, c.list, c.files, b.cells, b.clock, e, bytes);
    assert c.files[ContentPath(key) := bytes] == c.files;
  }

  lemma GetRefines(names: set<string>, c: Cache, b: BMap, key: string, now: int)
    requires NamesDistinct(ContentPath, names) && Rel(names, c, b)
    ensures Rel(names, Got(c, key, now).0, BDo(b, Get(key, now)).0)
    ensures Got(c, key, now).1 == BDo(b, Get(key, now)).1
  {
    RelKeys(ContentPath, c.list, c.files, b.cells, b.clock);
    if key in b.cells && !Stale(b, key, now) {
      HitRefines(names, c, b, key, now);
    } else if key in b.cells {
      RemoveRefines(names, c, b, key);
      HeldEntry(names, c, b, key);
    } else {
      LaterRel(ContentPath, c.list, c.files, b.cells, b.clock);
    }
  }

  /** After an entry is put in front, the write either succeeds or takes it out again. */
  lemma WriteRefines(names: set<string>, c: Cache, b: BMap, key: string, cells: map<string, Cell>,
                     content: Bytes, written: bool, saved: bool)
    requires NamesDistinct(ContentPath, names) && cells.Keys <= names && key in cells
    requires c.maxEntries == b.max >= 1 && c.ttl == b.ttl && Holds(c.list, key)
    requires ListRel(ContentPath, c.list, c.files[ContentPath(key) := content], cells, b.clock + 1)
    ensures Rel(names, ContentWritten(c, key, content, written, saved),
                b.(clock := b.clock + 1, cells := if written then cells else cells - {key}))
  {
    if !written {
      var files := c.files[ContentPath(key) := content];
      DropRel(ContentPath, names, c.list, files, cells, b.clock + 1, key);
      assert files - {ContentPath(key)} == c.files - {ContentPath(key)};
    }
  }

  /** Moving the entry of a held key to the front. */
  lemma PlaceOld(names: set<string>, c: Cache, b: BMap, key: string, content: Bytes, now: int)
    requires NamesDistinct(ContentPath, names) && Rel(names, c, b) && Holds(c.list, key) && key in b.cells
    ensures var placed := Placed(c, key, |content|, now);
            && placed == c.(list := placed.list) && Holds(placed.list, key)
            && ListRel(ContentPath, placed.list, placed.files[ContentPath(key) := content],
                       BPlaced(b, key, content, now), b.clock + 1)
  {
    HeldEntry(names, c, b, key);
    var e := Find(c.list, key).(accessedAt := now, size := |content|);
    MoveRel(ContentPath, names, c.list, c.files, b.cells, b.clock, e, content);
    HoldsCons(e, Without(c.list, key), key);
  }

  /** Making room and putting a new entry in front. */
  lemma PlaceNew(names: set<string>, c: Cache, b: BMap, key: string, content: Bytes, now: int)
    requires NamesDistinct(ContentPath, names) && Rel(names, c, b) && key in names
    requires !Holds(c.list, key) && key !in b.cells
    ensures var placed := Placed(c, key, |content|, now);
            && placed.maxEntries == c.maxEntries && placed.ttl == c.ttl && Holds(placed.list, key)
            && ListRel(ContentPath, placed.list, placed.files[ContentPath(key) := content],
                       BPlaced(b, key, content, now), b.clock + 1)
  {
    var e := Entry(key, key, |content|, now, now);
    EvictRel(names, c, b.cells, b.clock);
    MakeRoomKeys(b.cells, b.max);
    PushRel(ContentPath, names, Evicted(c).list, Evicted(c).files, MakeRoom(b.cells, b.max), b.clock, e, content);
    HoldsCons(e, Evicted(c).list, key);
  }

  /** The first half of `Set`. */
  lemma PlaceRel(names: set<string>, c: Cache, b: BMap, key: string, content: Bytes, now: int)
    requires NamesDistinct(ContentPath, names) && Rel(names, c, b) && key in names
    ensures var placed, cells := Placed(c, key, |content|, now), BPlaced(b, key, content, now);
            && placed.maxEntries == c.maxEntries && placed.ttl == c.ttl && Holds(placed.list, key)
            && key in cells && cells.Keys <= names
            && ListRel(ContentPath, placed.list, placed.files[ContentPath(key) := content], cells, b.clock + 1)
  {
    RelKeys(ContentPath, c.list, c.files, b.cells, b.clock);
    if Holds(c.list, key) {
      PlaceOld(names, c, b, key, content, now);
    } else {
      PlaceNew(names, c, b, key, content, now);
    }
    MakeRoomKeys(b.cells, b.max);
  }

  lemma SetRefines(names: set<string>, c: Cache, b: BMap, key: string, content: Bytes, now: int, written: bool,
                   saved: bool)
    requires NamesDistinct(ContentPath, names) && Rel(names, c, b) && key in names
    ensures Rel(names, AfterSet(c, key, content, now, written, saved),
                BDo(b, Set(key, content, now, written, saved)).0)
  {
    PlaceRel(names, c, b, key, content, now);
    WriteRefines(names, Placed(c, key, |content|, now), b, key, BPlaced(b, key, content, now), content, written, saved);
  }

  lemma SavedRel(names: set<string>, c: Cache, b: BMap, ok: bool)
    requires Rel(names, c, b)
    ensures Rel(names, Saved(c, ok), b)
  {
  }

  lemma DeleteRefines(names: set<string>, c: Cache, b: BMap, key: string, saved: bool)
    requires NamesDistinct(ContentPath, names) && Rel(names, c, b)
    ensures Rel(names, AfterDelete(c, key, saved), BDo(b, Delete(key, saved)).0)
  {
    RemoveRefines(names, c, b, key);
    SavedRel(names, Removed(c, key), b.(cells := b.cells - {key}, clock := b.clock + 1), saved);
  }

  // ---- pruning ----

  lemma RemoveTwice<V>(m: map<string, V>, keys: set<string>, k: string)
    ensures m - keys - {k} == m - (keys + {k})
  {
  }

  lemma RemoveNone<V>(m: map<string, V>, keys: set<string>)
    requires keys == {}
    ensures m - keys == m
  {
  }

  lemma SplitRemoval(path: string -> string, list: seq<Entry>, files: map<string, Bytes>, cells: map<string, Cell>,
                     keys: set<string>, k: string)
    requires k in keys
    ensures WithoutAll(list, keys) == Without(WithoutAll(list, keys - {k}), k)
    ensures files - Images(path, keys) == files - Images(path, keys - {k}) - {path(k)}
    ensures cells - keys == cells - (keys - {k}) - {k}
  {
    var fewer := keys - {k};
    assert fewer + {k} == keys;
    WithoutAllStep(list, fewer, k);
    assert Images(path, keys) == Images(path, fewer) + {path(k)};
    RemoveTwice(files, Images(path, fewer), path(k));
    RemoveTwice(cells, fewer, k);
  }

  lemma {:induction false} DropAllRel(path: string -> string, names: set<string>, list: seq<Entry>,
                                      files: map<string, Bytes>, cells: map<string, Cell>, clock: nat,
                                      keys: set<string>)
    requires NamesDistinct(path, names) && cells.Keys <= names
    requires ListRel(path, list, files, cells, clock) && keys <= cells.Keys
    ensures ListRel(path, WithoutAll(list, keys), files - Images(path, keys), cells - keys, clock)
  {
    if keys == {} {
      WithoutNone(list);
      RemoveNone(files, Images(path, keys));
      RemoveNone(cells, keys);
    } else {
      var k :| k in keys;
      DropAllRel(path, names, list, files, cells, clock, keys - {k});
      var l1, f1, c1 := WithoutAll(list, keys - {k}), files - Images(path, keys - {k}), cells - (keys - {k});
      assert k in c1 && c1.Keys <= names;
      DropRel(path, names, l1, f1, c1, clock, k);
      SplitRemoval(path, list, files, cells, keys, k);
    }
  }

  lemma ExpiredAreStale(names: set<string>, c: Cache, b: BMap, now: int)
    requires Rel(names, c, b)
    ensures ExpiredKeys(c, now) <= b.cells.Keys
    ensures b.cells - ExpiredKeys(c, now) == map k | k in b.cells && !Stale(b, k, now) :: b.cells[k]
  {
  }

  lemma PruneRefines(names: set<string>, c: Cache, b: BMap, now: int, saved: bool)
    requires NamesDistinct(ContentPath, names) && Rel(names, c, b)
    ensures Rel(names, AfterPrune(c, now, saved), BDo(b, Prune(now, saved)).0)
  {
    var gone := ExpiredKeys(c, now);
    ExpiredAreStale(names, c, b, now);
    LaterRel(ContentPath, c.list, c.files, b.cells, b.clock);
    if gone == {} {
      RemoveNone(b.cells, gone);
    } else {
      DropAllRel(ContentPath, names, c.list, c.files, b.cells, b.clock + 1, gone);
      FewerCells(b.cells, gone);
    }
  }

  lemma FewerCells(cells: map<string, Cell>, keys: set<string>)
    ensures |cells - keys| <= |cells|
  {
  }

  // ---- whole traces ----

  /** The cache after a trace, and what each operation returned. */
  ghost function Run(c: Cache, ops: seq<Op>): (r: (Cache, seq<Option<Bytes>>))
    requires c.maxEntries >= 1
    ensures r.0.maxEntries == c.maxEntries && r.0.ttl == c.ttl && |r.1| == |ops|
    decreases |ops|
  {
    if ops == [] then (c, [])
    else
      var (before, outs) := Run(c, ops[..|ops| - 1]);
      var (after, out) := Do(before, ops[|ops| - 1]);
      (after, outs + [out])
  }

  ghost function BRun(b: BMap, ops: seq<Op>): (BMap, seq<Option<Bytes>>)
    decreases |ops|
  {
    if ops == [] then (b, [])
    else
      var (before, outs) := BRun(b, ops[..|ops| - 1]);
      var (after, out) := BDo(before, ops[|ops| - 1]);
      (after, outs + [out])
  }

  function EmptyMap(max: int, ttl: int): BMap {
    BMap(max, ttl, map[], 0)
  }

  lemma DoRefines(names: set<string>, c: Cache, b: BMap, op: Op)
    requires NamesDistinct(ContentPath, names) && Rel(names, c, b) && Mentions(op, names)
    ensures Rel(names, Do(c, op).0, BDo(b, op).0) && Do(c, op).1 == BDo(b, op).1
  {
    match op
    case Get(key, now) => GetRefines(names, c, b, key, now);
    case Set(key, content, now, written, saved) => SetRefines(names, c, b, key, content, now, written, saved);
    case Delete(key, saved) => DeleteRefines(names, c, b, key, saved);
    case Prune(now, saved) => PruneRefines(names, c, b, now, saved);
    case Clear(_) =>
  }

  /** From any cache that stands for a bounded map, even one that holds more than its capacity, every
      trace keeps standing for the map and returns what the map returns. */
  lemma {:induction false} RunRefines(names: set<string>, c: Cache, b: BMap, ops: seq<Op>)
    requires NamesDistinct(ContentPath, names) && Rel(names, c, b)
    requires forall i :: 0 <= i < |ops| ==> Mentions(ops[i], names)
    ensures Rel(names, Run(c, ops).0, BRun(b, ops).0) && Run(c, ops).1 == BRun(b, ops).1
    decreases |ops|
  {
    if ops != [] {
      var init := ops[..|ops| - 1];
      RunRefines(names, c, b, init);
      DoRefines(names, Run(c, init).0, BRun(b, init).0, ops[|ops| - 1]);
    }
  }

  /** No operation leaves more entries than the capacity, if there were no more before. */
  lemma DoFits(c: Cache, op: Op)
    requires 1 <= c.maxEntries && |c.list| <= c.maxEntries
    ensures |Do(c, op).0.list| <= c.maxEntries
  {
    match op
    case Get(key, _) => WithoutShrinks(c.list, key);
    case Set(key, content, now, _, _) =>
      WithoutShrinks(c.list, key);
      WithoutShrinks(Placed(c, key, |content|, now).list, key);
    case Delete(key, _) => WithoutShrinks(c.list, key);
    case Prune(now, _) => WithoutAllShrinks(c.list, ExpiredKeys(c, now));
    case Clear(_) =>
  }

  lemma {:induction false} RunFits(c: Cache, ops: seq<Op>)
    requires 1 <= c.maxEntries && |c.list| <= c.maxEntries
    ensures |Run(c, ops).0.list| <= c.maxEntries
    decreases |ops|
  {
    if ops != [] {
      RunFits(c, ops[..|ops| - 1]);
      DoFits(Run(c, ops[..|ops| - 1]).0, ops[|ops| - 1]);
    }
  }

  /** The cache refines the bounded map: over every trace whose keys have distinct file names, each
      operation returns what the bounded map returns, and the capacity is never exceeded. */
  lemma CacheRefinesMap(names: set<string>, max: int, ttl: int, ops: seq<Op>)
    requires NamesDistinct(ContentPath, names) && max >= 1
    requires forall i :: 0 <= i < |ops| ==> Mentions(ops[i], names)
    ensures Rel(names, Run(Empty(max, ttl), ops).0, BRun(EmptyMap(max, ttl), ops).0)
    ensures Run(Empty(max, ttl), ops).1 == BRun(EmptyMap(max, ttl), ops).1
    ensures |Run(Empty(max, ttl), ops).0.list| <= max
  {
    RunRefines(names, Empty(max, ttl), EmptyMap(max, ttl), ops);
    RunFits(Empty(max, ttl), ops);
  }
}
