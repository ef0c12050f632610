/** What a cache lookup means in terms of the operations that came before it. */
module CacheHistory {
  import opened Common
  import opened CacheModel
  import opened CacheLists
  import opened CacheRefinement

  ghost function MapAfter(max: int, ttl: int, ops: seq<Op>): BMap {
    BRun(EmptyMap(max, ttl), ops).0
  }

  // ---- the clock ----

  /** The clock reading of an operation, if it takes one. */
  function Clock(op: Op, t: int): int {
    match op
    case Get(_, now) => now
    case Set(_, _, now, _, _) => now
    case _ => t
  }

  /** The last clock reading of a trace. */
  function Now(ops: seq<Op>, start: int): int {
    if ops == [] then start else Clock(ops[|ops| - 1], Now(ops[..|ops| - 1], start))
  }

  /** The clock never runs backwards. */
  predicate Forward(ops: seq<Op>, start: int) {
    ops == [] || (Forward(ops[..|ops| - 1], start) && Now(ops, start) >= Now(ops[..|ops| - 1], start))
  }

  lemma {:induction false} ForwardPrefix(ops: seq<Op>, start: int, i: nat)
    requires Forward(ops, start) && i <= |ops|
    ensures Forward(ops[..i], start)
    decreases |ops|
  {
    if i < |ops| {
      ForwardPrefix(ops[..|ops| - 1], start, i);
      assert ops[..|ops| - 1][..i] == ops[..i];
    } else {
      assert ops[..i] == ops;
    }
  }

  // ---- presence ----

  /** The content of the last operation that stored `key`, if nothing took it out explicitly since. */
  function Latest(ops: seq<Op>, key: string): Option<Bytes> {
    if ops == [] then None
    else
      var init := ops[..|ops| - 1];
      match ops[|ops| - 1]
      case Set(k, content, _, written, _) =>
        if k != key then Latest(init, key) else if written then Some(content) else None
      case Delete(k, _) => if k == key then None else Latest(init, key)
      case Clear(listed) => if listed then None else Latest(init, key)
      case _ => Latest(init, key)
  }

  predicate Stores(op: Op, key: string) {
    op.Set? && op.key == key && op.written
  }

  /** Exactly the ways a present key can go: an explicit removal, a failed write, expiry, or eviction
      as a least recently touched key when a new key meets a full cache. */
  predicate Leaves(b: BMap, op: Op, key: string) {
    match op
    case Get(k, now) => k == key && Stale(b, key, now)
    case Set(k, _, _, written, _) =>
      || (k == key && !written)
      || (k != key && k !in b.cells && Crowded(b.cells, b.max, key))
    case Delete(k, _) => k == key
    case Prune(now, _) => Stale(b, key, now)
    case Clear(listed) => listed
  }

  lemma StepPresence(b: BMap, op: Op, key: string)
    ensures key in BDo(b, op).0.cells <==>
              (key in b.cells && !Leaves(b, op, key)) || (key !in b.cells && Stores(op, key))
  {
  }

  lemma StepContent(b: BMap, op: Op, key: string)
    requires key in BDo(b, op).0.cells
    ensures var cell := BDo(b, op).0.cells[key];
            && (Stores(op, key) ==> cell.bytes == op.content)
            && (!Stores(op, key) ==> key in b.cells && cell.bytes == b.cells[key].bytes)
            && cell.born == (if key in b.cells then b.cells[key].born else op.now)
  {
  }

  lemma {:induction false} MapConfig(max: int, ttl: int, ops: seq<Op>)
    ensures MapAfter(max, ttl, ops).max == max && MapAfter(max, ttl, ops).ttl == ttl
    decreases |ops|
  {
    if ops != [] {
      MapConfig(max, ttl, ops[..|ops| - 1]);
    }
  }

  lemma {:induction false} PresentIsLatest(max: int, ttl: int, ops: seq<Op>, key: string)
    requires key in MapAfter(max, ttl, ops).cells
    ensures Latest(ops, key) == Some(MapAfter(max, ttl, ops).cells[key].bytes)
    decreases |ops|
  {
    var init, op := ops[..|ops| - 1], ops[|ops| - 1];
    var b := MapAfter(max, ttl, init);
    assert MapAfter(max, ttl, ops) == BDo(b, op).0;
    StepPresence(b, op, key);
    StepContent(b, op, key);
    if !Stores(op, key) {
      PresentIsLatest(max, ttl, init, key);
    }
  }

  /** `born` is the time of the store that ended the key's last absence. */
  lemma {:induction false} BornMeaning(max: int, ttl: int, ops: seq<Op>, key: string) returns (i: nat)
    requires key in MapAfter(max, ttl, ops).cells
    ensures i < |ops| && Stores(ops[i], key) && ops[i].now == MapAfter(max, ttl, ops).cells[key].born
    ensures key !in MapAfter(max, ttl, ops[..i]).cells
    ensures forall j :: i < j <= |ops| ==> key in MapAfter(max, ttl, ops[..j]).cells
    decreases |ops|
  {
    var init, op := ops[..|ops| - 1], ops[|ops| - 1];
    var b := MapAfter(max, ttl, init);
    assert MapAfter(max, ttl, ops) == BDo(b, op).0;
    StepPresence(b, op, key);
    StepContent(b, op, key);
    assert ops[..|ops|] == ops;
    if key in b.cells {
      i := BornMeaning(max, ttl, init, key);
      assert init[..i] == ops[..i];
      forall j | i < j <= |ops| ensures key in MapAfter(max, ttl, ops[..j]).cells {
        if j < |ops| {
          assert init[..j] == ops[..j];
        }
      }
    } else {
      i := |ops| - 1;
    }
  }

  /** The key left at step `i` and was not stored again. */
  ghost predicate LeftAt(max: int, ttl: int, ops: seq<Op>, key: string, i: nat) {
    && i < |ops|
    && key in MapAfter(max, ttl, ops[..i]).cells && Leaves(MapAfter(max, ttl, ops[..i]), ops[i], key)
    && forall j :: i < j < |ops| ==> !Stores(ops[j], key)
  }

  ghost predicate NeverStored(ops: seq<Op>, key: string) {
    forall i :: 0 <= i < |ops| ==> !Stores(ops[i], key)
  }

  /** A key is absent exactly when it was never stored, or left and was not stored since. */
  lemma {:induction false} AbsenceMeaning(max: int, ttl: int, ops: seq<Op>, key: string)
    ensures key !in MapAfter(max, ttl, ops).cells <==>
              NeverStored(ops, key) || exists i :: LeftAt(max, ttl, ops, key, i)
    decreases |ops|
  {
    if ops != [] {
      var init, op := ops[..|ops| - 1], ops[|ops| - 1];
      var b := MapAfter(max, ttl, init);
      assert MapAfter(max, ttl, ops) == BDo(b, op).0;
      StepPresence(b, op, key);
      AbsenceMeaning(max, ttl, init, key);
      assert ops == init + [op];
      forall i: nat ensures LeftAt(max, ttl, ops, key, i) <==>
          if i == |init| then key in b.cells && Leaves(b, op, key)
          else LeftAt(max, ttl, init, key, i) && !Stores(op, key)
      {
        if i < |init| {
          assert init[..i] == ops[..i];
        }
      }
      if key in b.cells && Leaves(b, op, key) {
        assert LeftAt(max, ttl, ops, key, |init|);
      }
      if exists i :: LeftAt(max, ttl, init, key, i) {
        var i :| LeftAt(max, ttl, init, key, i);
        assert LeftAt(max, ttl, ops, key, i) <==> !Stores(op, key);
      }
    }
  }

  /** A new key always fits: even a list that is too long, as after loading under a larger capacity, is
      cut to the capacity when a new key is set. */
  lemma NewKeyFits(c: Cache, key: string, content: Bytes, now: int, written: bool, saved: bool)
    requires c.maxEntries >= 1 && !Holds(c.list, key)
    ensures |AfterSet(c, key, content, now, written, saved).list| <= c.maxEntries
    ensures written ==> Holds(AfterSet(c, key, content, now, written, saved).list, key)
  {
    var placed := Placed(c, key, |content|, now);
    assert placed.list[0].key == key;
    WithoutShrinks(placed.list, key);
  }

  /** For any cache, sound or not: a lookup hits exactly when the key is held, young enough and has a file; a
      hit returns that file and moves the key to the front, and after a miss the key is not held. */
  lemma GotMeaning(c: Cache, key: string, now: int)
    ensures var (c', r) := Got(c, key, now);
            && (r.Some? <==> && Holds(c.list, key) && now - Find(c.list, key).createdAt <= c.ttl
                             && ContentPath(key) in c.files)
            && (r.Some? ==> r.value == c.files[ContentPath(key)] && c'.list != [] && c'.files == c.files
                            && c'.list[0] == Find(c.list, key).(accessedAt := now))
            && (r == None ==> !Holds(c'.list, key))
            && c'.saved == c.saved
  {
    WithoutHolds(c.list, key, key);
  }

  // ---- lookups ----

  ghost predicate AllMention(ops: seq<Op>, names: set<string>) {
    forall i :: 0 <= i < |ops| ==> Mentions(ops[i], names)
  }

  /** What `Get(key)` at time `now` returns after the trace `ops`. */
  ghost function Lookup(max: int, ttl: int, ops: seq<Op>, key: string, now: int): Option<Bytes>
    requires max >= 1
  {
    Got(Run(Empty(max, ttl), ops).0, key, now).1
  }

  /** A lookup returns the latest stored bytes, and misses exactly when the key was never stored, has
      left, or is older than the time to live counted from the store that ended its last absence. */
  lemma LookupMeaning(names: set<string>, max: int, ttl: int, ops: seq<Op>, key: string, now: int)
    requires NamesDistinct(ContentPath, names) && max >= 1 && AllMention(ops, names)
    ensures var b := MapAfter(max, ttl, ops);
            Lookup(max, ttl, ops, key, now) ==
              if key in b.cells && now - b.cells[key].born <= ttl then Latest(ops, key) else None
    ensures Lookup(max, ttl, ops, key, now).Some? <==>
              && !NeverStored(ops, key) && !(exists i :: LeftAt(max, ttl, ops, key, i))
              && !Stale(MapAfter(max, ttl, ops), key, now)
  {
    CacheRefinesMap(names, max, ttl, ops);
    GetRefines(names, Run(Empty(max, ttl), ops).0, MapAfter(max, ttl, ops), key, now);
    AbsenceMeaning(max, ttl, ops, key);
    MapConfig(max, ttl, ops);
    if key in MapAfter(max, ttl, ops).cells {
      PresentIsLatest(max, ttl, ops, key);
    }
  }

  // ---- file names must be distinct ----

  ghost predicate ReadsLatest(max: int, ttl: int, ops: seq<Op>, key: string, now: int)
    requires max >= 1
  {
    Lookup(max, ttl, ops, key, now).Some? ==> Lookup(max, ttl, ops, key, now) == Latest(ops, key)
  }

  ghost predicate AlwaysReadsLatest(names: set<string>, max: int, ttl: int)
    requires max >= 1
  {
    forall ops, key, now :: AllMention(ops, names) && key in names ==> ReadsLatest(max, ttl, ops, key, now)
  }

  /** Two keys with one file name, in a cache with room for both: setting the second changes what the
      first returns. */
  lemma AliasedKeysMix(max: int, ttl: int, a: string, b: string)
    requires max >= 2 && a != b && ContentPath(a) == ContentPath(b)
    ensures exists ops :: AllMention(ops, {a, b}) && !ReadsLatest(max, ttl, ops, a, ttl)
  {
    var s1, s2 := Set(a, [1], 0, true, true), Set(b, [2], 0, true, true);
    var ops := [s1, s2];
    var c0 := Empty(max, ttl);
    var c1 := Do(c0, s1).0;
    var c2 := Do(c1, s2).0;
    assert ops[..1] == [s1] && [s1][..0] == [];
    assert Run(c0, []).0 == c0;
    assert Run(c0, [s1]).0 == c1;
    assert Run(c0, ops).0 == c2;
    var ea, eb := Entry(a, a, 1, 0, 0), Entry(b, b, 1, 0, 0);
    assert c1.list == [ea] && c2.list == [eb, ea];
    assert c2.list[1].key == a;
    assert Find(c2.list, a) == ea by { assert c2.list[1..] == [ea]; }
    assert c2.files[ContentPath(a)] == [2];
    assert Got(c2, a, ttl).1 == Some([2]);
    assert Latest([s1], a) == Some([1]);
    assert Latest(ops, a) == Some([1]);
    assert !ReadsLatest(max, ttl, ops, a, ttl);
  }

  /** A cache for one entry holds at most one key, and its file has that key's latest bytes. */
  ghost predicate SingleHolds(c: Cache, ops: seq<Op>) {
    && c.maxEntries == 1 && |c.list| <= 1
    && (c.list != [] ==> var k := c.list[0].key;
          ContentPath(k) in c.files && Some(c.files[ContentPath(k)]) == Latest(ops, k))
  }

  lemma SingleSet(c: Cache, ops: seq<Op>, op: Op)
    requires SingleHolds(c, ops) && op.Set?
    ensures SingleHolds(Do(c, op).0, ops + [op])
  {
    assert (ops + [op])[..|ops|] == ops;
    var placed := Placed(c, op.key, |op.content|, op.now);
    if c.list != [] {
      assert c.list == [c.list[0]] && c.list[1..] == [];
      assert Holds(c.list, op.key) ==> Without(c.list, op.key) == [];
    }
    assert |placed.list| == 1 && placed.list[0].key == op.key;
    assert placed.list == [placed.list[0]] && placed.list[1..] == [];
    assert Without(placed.list, op.key) == [];
  }

  lemma SingleStep(c: Cache, ops: seq<Op>, op: Op)
    requires SingleHolds(c, ops)
    ensures SingleHolds(Do(c, op).0, ops + [op])
  {
    assert (ops + [op])[..|ops|] == ops;
    if c.list != [] {
      assert c.list == [c.list[0]] && c.list[1..] == [];
    }
    match op
    case Set(_, _, _, _, _) => SingleSet(c, ops, op);
    case Prune(now, _) =>
      if c.list != [] && Expired(c, c.list[0], now) {
        assert c.list[0].key in ExpiredKeys(c, now);
        assert WithoutAll(c.list, ExpiredKeys(c, now)) == [];
      } else {
        assert ExpiredKeys(c, now) == {};
      }
    case Get(key, _) => assert Holds(c.list, key) ==> Without(c.list, key) == [];
    case Delete(key, _) => assert Holds(c.list, key) ==> Without(c.list, key) == [];
    case Clear(_) =>
  }

  lemma {:induction false} SingleReadsLatest(ttl: int, ops: seq<Op>)
    ensures SingleHolds(Run(Empty(1, ttl), ops).0, ops)
    decreases |ops|
  {
    if ops != [] {
      var init := ops[..|ops| - 1];
      SingleReadsLatest(ttl, init);
      SingleStep(Run(Empty(1, ttl), init).0, init, ops[|ops| - 1]);
      assert init + [ops[|ops| - 1]] == ops;
    }
  }

  /** So lookups always return the latest stored bytes if and only if file names are distinct, or there
      is room for one entry only: then the other key is evicted, file and all, before the name is reused. */
  lemma ReadsLatestIffNamesDistinct(names: set<string>, max: int, ttl: int)
    requires max >= 1
    ensures AlwaysReadsLatest(names, max, ttl) <==> NamesDistinct(ContentPath, names) || max == 1
  {
    if max == 1 {
      forall ops, key, now | AllMention(ops, names) && key in names ensures ReadsLatest(max, ttl, ops, key, now) {
        SingleReadsLatest(ttl, ops);
      }
    } else if NamesDistinct(ContentPath, names) {
      forall ops, key, now | AllMention(ops, names) && key in names ensures ReadsLatest(max, ttl, ops, key, now) {
        LookupMeaning(names, max, ttl, ops, key, now);
      }
    } else {
      var a, b :| a in names && b in names && ContentPath(a) == ContentPath(b) && a != b;
      AliasedKeysMix(max, ttl, a, b);
      var ops :| AllMention(ops, {a, b}) && !ReadsLatest(max, ttl, ops, a, ttl);
      assert AllMention(ops, names);
    }
  }

  /** `sanitizeKey` is not injective. */
  lemma SanitizeCollides()
    ensures "a/b" != "a:b" && ContentPath("a/b") == ContentPath("a:b")
  {
    assert "a/b"[..2] == "a/" && "a:b"[..2] == "a:" && "a/"[..1] == "a" && "a:"[..1] == "a" && "a"[..0] == "";
    assert SanitizeKey("a") == "a";
    assert SanitizeKey("a/") == "a_" && SanitizeKey("a:") == "a_";
    assert SanitizeKey("a/b") == "a_b" && SanitizeKey("a:b") == "a_b";
  }
}
