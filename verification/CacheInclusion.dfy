/** LRU inclusion: a smaller cache never holds a key that a larger one lacks. */
module CacheInclusion {
  import opened Common
  import opened CacheModel
  import opened CacheLists
  import opened CacheRefinement
  import opened CacheHistory

  // ---- recency lists of keys ----

  function Drop(keys: seq<string>, k: string): seq<string> {
    if keys == [] then [] else (if keys[0] == k then [] else [keys[0]]) + Drop(keys[1..], k)
  }

  /** What remains beside `k` when `k` is set: everything else, less the last key if `k` is new and
      there is no room. */
  function Beside(keys: seq<string>, max: int, k: string): seq<string>
    requires max >= 1
  {
    if k in keys then Drop(keys, k) else if |keys| < max then keys else keys[..|keys| - 1]
  }

  function DropAll(keys: seq<string>, gone: set<string>): seq<string> {
    if keys == [] then [] else (if keys[0] in gone then [] else [keys[0]]) + DropAll(keys[1..], gone)
  }

  /** The effect of an operation on the keys alone, when it finds the keys in `lapsed` expired. */
  function KeysDo(keys: seq<string>, max: int, op: Op, lapsed: set<string>): seq<string>
    requires max >= 1
  {
    match op
    case Get(k, _) => if k !in keys then keys else (if k in lapsed then [] else [k]) + Drop(keys, k)
    case Set(k, _, _, written, _) => (if written then [k] else []) + Beside(keys, max, k)
    case Delete(k, _) => Drop(keys, k)
    case Prune(_, _) => DropAll(keys, lapsed)
    case Clear(listed) => if listed then [] else keys
  }

  lemma {:induction false} DropFacts(keys: seq<string>, k: string)
    ensures forall x :: x in Drop(keys, k) <==> x in keys && x != k
    ensures |Drop(keys, k)| <= |keys|
    ensures k !in keys ==> Drop(keys, k) == keys
    ensures Distinct(keys) ==> Distinct(Drop(keys, k))
    ensures Distinct(keys) && k in keys ==> |Drop(keys, k)| == |keys| - 1
  {
    if keys != [] {
      var tail := keys[1..];
      DropFacts(tail, k);
      assert keys == [keys[0]] + tail;
      if Distinct(keys) {
        assert keys[0] !in tail;
        assert Distinct(tail);
      }
    }
  }

  // ---- subsequences ----

  predicate Sub(s: seq<string>, b: seq<string>) {
    if s == [] then true
    else if b == [] then false
    else if s[0] == b[0] then Sub(s[1..], b[1..])
    else Sub(s, b[1..])
  }

  lemma {:induction false} SubMember(s: seq<string>, b: seq<string>, x: string)
    requires Sub(s, b) && x in s
    ensures x in b
    decreases |b|
  {
    assert s == [s[0]] + s[1..];
    if s[0] == b[0] {
      if x != s[0] {
        SubMember(s[1..], b[1..], x);
      }
    } else {
      SubMember(s, b[1..], x);
    }
  }

  /** Dropping the same key from both sides. */
  lemma {:induction false} SubDrop(s: seq<string>, b: seq<string>, k: string)
    requires Sub(s, b) && Distinct(b)
    ensures Sub(Drop(s, k), Drop(b, k))
    decreases |b|
  {
    if s != [] {
      assert Distinct(b[1..]);
      if s[0] == b[0] {
        SubDrop(s[1..], b[1..], k);
        if s[0] != k {
          assert Drop(s, k)[1..] == Drop(s[1..], k) && Drop(b, k)[1..] == Drop(b[1..], k);
        } else {
          assert Drop(s, k) == Drop(s[1..], k) && Drop(b, k) == Drop(b[1..], k);
        }
      } else {
        SubDrop(s, b[1..], k);
        if b[0] != k {
          assert Drop(b, k)[1..] == Drop(b[1..], k);
          SubSkip(Drop(s, k), Drop(b[1..], k), b[0]);
          assert Drop(b, k) == [b[0]] + Drop(b[1..], k);
        } else {
          assert Drop(b, k) == Drop(b[1..], k);
        }
      }
    }
  }

  lemma {:induction false} SubTail(s: seq<string>, b: seq<string>)
    requires Sub(s, b) && s != []
    ensures Sub(s[1..], b)
    decreases |b|, 0
  {
    if s[0] == b[0] {
      if s[1..] != [] {
        SubSkip(s[1..], b[1..], b[0]);
        assert b == [b[0]] + b[1..];
      }
    } else {
      SubTail(s, b[1..]);
      SubSkip(s[1..], b[1..], b[0]);
      assert b == [b[0]] + b[1..];
    }
  }

  /** An extra key in front of the longer side. */
  lemma {:induction false} SubSkip(s: seq<string>, b: seq<string>, k: string)
    requires Sub(s, b)
    ensures Sub(s, [k] + b)
    decreases |b|, 1
  {
    assert ([k] + b)[1..] == b;
    if s != [] && s[0] == k {
      SubTail(s, b);
    }
  }

  /** Evicting on the shorter side only. */
  lemma {:induction false} SubInit(s: seq<string>, b: seq<string>)
    requires Sub(s, b) && s != []
    ensures Sub(s[..|s| - 1], b)
    decreases |b|
  {
    if |s| > 1 {
      var init := s[..|s| - 1];
      if s[0] == b[0] {
        SubInit(s[1..], b[1..]);
        assert init[1..] == s[1..][..|s[1..]| - 1];
      } else {
        SubInit(s, b[1..]);
      }
    }
  }

  /** Evicting on both sides. */
  lemma {:induction false} SubInits(s: seq<string>, b: seq<string>)
    requires Sub(s, b) && s != []
    ensures b != [] && Sub(s[..|s| - 1], b[..|b| - 1])
    decreases |b|
  {
    var s', b' := s[..|s| - 1], b[..|b| - 1];
    if |s| > 1 {
      if s[0] == b[0] {
        SubInits(s[1..], b[1..]);
        assert s'[1..] == s[1..][..|s[1..]| - 1] && b'[1..] == b[1..][..|b[1..]| - 1];
      } else {
        SubInits(s, b[1..]);
        assert b'[1..] == b[1..][..|b[1..]| - 1];
      }
    }
  }

  // ---- dropping several keys ----

  lemma {:induction false} DropAllFacts(keys: seq<string>, gone: set<string>)
    ensures forall x :: x in DropAll(keys, gone) <==> x in keys && x !in gone
    ensures |DropAll(keys, gone)| <= |keys|
    ensures Distinct(keys) ==> Distinct(DropAll(keys, gone))
  {
    if keys != [] {
      DropAllFacts(keys[1..], gone);
      assert keys == [keys[0]] + keys[1..];
    }
  }

  lemma DropAllHead(keys: seq<string>, gone: set<string>)
    requires keys != []
    ensures var rest, all := DropAll(keys[1..], gone), DropAll(keys, gone);
            if keys[0] in gone then all == rest else all == [keys[0]] + rest && all[1..] == rest
  {
  }

  /** Only which of its own keys are dropped matters to a list. */
  lemma {:induction false} DropAllSame(keys: seq<string>, g1: set<string>, g2: set<string>)
    requires forall x :: x in keys ==> (x in g1 <==> x in g2)
    ensures DropAll(keys, g1) == DropAll(keys, g2)
  {
    if keys != [] {
      DropAllSame(keys[1..], g1, g2);
    }
  }

  /** Dropping the same keys from both sides: the longer side loses at least as many. */
  lemma {:induction false} SubDropAll(s: seq<string>, b: seq<string>, gone: set<string>)
    requires Sub(s, b)
    ensures Sub(DropAll(s, gone), DropAll(b, gone))
    ensures |DropAll(b, gone)| - |DropAll(s, gone)| <= |b| - |s|
    decreases |b|
  {
    if s == [] {
      DropAllFacts(b, gone);
    } else if s[0] == b[0] {
      SubDropAll(s[1..], b[1..], gone);
      DropAllHead(s, gone);
      DropAllHead(b, gone);
    } else {
      SubDropAll(s, b[1..], gone);
      SubSkip(DropAll(s, gone), DropAll(b[1..], gone), b[0]);
      DropAllHead(b, gone);
    }
  }

  // ---- two capacities side by side ----

  /** The smaller list is a subsequence of the larger, and lacks no more keys than the capacities
      differ: whenever the larger cache is full, so is the smaller. */
  ghost predicate Included(s: seq<string>, b: seq<string>, m: int, m': int) {
    && 1 <= m <= m' && |s| <= m && |b| <= m'
    && Distinct(s) && Distinct(b) && Sub(s, b)
    && |b| - |s| <= m' - m
  }

  lemma BesideIncluded(s: seq<string>, b: seq<string>, m: int, m': int, k: string)
    requires Included(s, b, m, m')
    ensures Included(Beside(s, m, k), Beside(b, m', k), m, m')
    ensures k !in Beside(s, m, k) && k !in Beside(b, m', k)
    ensures |Beside(s, m, k)| < m && |Beside(b, m', k)| < m'
  {
    DropFacts(s, k);
    DropFacts(b, k);
    SubDrop(s, b, k);
    if k in s {
      SubMember(s, b, k);
    } else if |s| == m {
      SubInit(s, Drop(b, k));
      SubInits(s, b);
      SubInit(s, b);
    }
  }

  lemma DropIncluded(s: seq<string>, b: seq<string>, m: int, m': int, k: string)
    requires Included(s, b, m, m')
    ensures Included(Drop(s, k), Drop(b, k), m, m')
  {
    DropFacts(s, k);
    DropFacts(b, k);
    SubDrop(s, b, k);
    if k in s {
      SubMember(s, b, k);
    }
  }

  /** Putting a key that neither side holds in front of both. */
  lemma FrontIncluded(s: seq<string>, b: seq<string>, m: int, m': int, k: string)
    requires Included(s, b, m, m') && |s| < m && |b| < m' && k !in s && k !in b
    ensures Included([k] + s, [k] + b, m, m')
  {
  }

  /** Dropping a key that the smaller side lacks from the larger side only. */
  lemma DropLargerIncluded(s: seq<string>, b: seq<string>, m: int, m': int, k: string)
    requires Included(s, b, m, m') && k !in s
    ensures Included(s, Drop(b, k), m, m')
  {
    DropIncluded(s, b, m, m', k);
    DropFacts(s, k);
  }

  lemma GetHeldIncluded(s: seq<string>, b: seq<string>, m: int, m': int, k: string, lapsed: bool)
    requires Included(s, b, m, m') && k in s
    ensures k in b
    ensures var front := if lapsed then [] else [k]; Included(front + Drop(s, k), front + Drop(b, k), m, m')
  {
    DropFacts(s, k);
    DropFacts(b, k);
    DropIncluded(s, b, m, m', k);
    SubMember(s, b, k);
    if lapsed {
      assert [] + Drop(s, k) == Drop(s, k) && [] + Drop(b, k) == Drop(b, k);
    } else {
      FrontIncluded(Drop(s, k), Drop(b, k), m, m', k);
    }
  }

  lemma GetLargerIncluded(s: seq<string>, b: seq<string>, m: int, m': int, k: string, lapsed: bool)
    requires Included(s, b, m, m') && k !in s && k in b
    ensures Included(s, (if lapsed then [] else [k]) + Drop(b, k), m, m')
  {
    DropFacts(b, k);
    DropLargerIncluded(s, b, m, m', k);
    if lapsed {
      assert [] + Drop(b, k) == Drop(b, k);
    } else {
      SubSkip(s, Drop(b, k), k);
    }
  }

  lemma PruneIncluded(s: seq<string>, b: seq<string>, m: int, m': int, ls: set<string>, lb: set<string>)
    requires Included(s, b, m, m') && forall k :: k in s ==> (k in ls <==> k in lb)
    ensures Included(DropAll(s, ls), DropAll(b, lb), m, m')
  {
    DropAllSame(s, ls, lb);
    DropAllFacts(s, ls);
    DropAllFacts(b, lb);
    SubDropAll(s, b, lb);
  }

  /** One operation on both sides, when it finds the same keys of the smaller side expired in both. */
  lemma StepIncluded(s: seq<string>, b: seq<string>, m: int, m': int, op: Op, ls: set<string>, lb: set<string>)
    requires Included(s, b, m, m') && forall k :: k in s ==> (k in ls <==> k in lb)
    ensures Included(KeysDo(s, m, op, ls), KeysDo(b, m', op, lb), m, m')
  {
    match op
    case Get(k, _) =>
      if k in s {
        GetHeldIncluded(s, b, m, m', k, k in ls);
      } else if k in b {
        GetLargerIncluded(s, b, m, m', k, k in lb);
      }
    case Set(k, _, _, written, _) =>
      BesideIncluded(s, b, m, m', k);
      if written {
        FrontIncluded(Beside(s, m, k), Beside(b, m', k), m, m', k);
      } else {
        assert [] + Beside(s, m, k) == Beside(s, m, k) && [] + Beside(b, m', k) == Beside(b, m', k);
      }
    case Delete(k, _) => DropIncluded(s, b, m, m', k);
    case Prune(_, _) => PruneIncluded(s, b, m, m', ls, lb);
    case Clear(_) =>
  }

  // ---- from caches to key lists ----

  function KeysOf(list: seq<Entry>): seq<string> {
    if list == [] then [] else [list[0].key] + KeysOf(list[1..])
  }

  lemma {:induction false} KeysOfAt(list: seq<Entry>)
    ensures |KeysOf(list)| == |list|
    ensures forall i :: 0 <= i < |list| ==> KeysOf(list)[i] == list[i].key
  {
    if list != [] {
      KeysOfAt(list[1..]);
    }
  }

  lemma {:induction false} KeysWithout(list: seq<Entry>, k: string)
    ensures KeysOf(Without(list, k)) == Drop(KeysOf(list), k)
    ensures Holds(list, k) <==> k in KeysOf(list)
  {
    KeysOfAt(list);
    if list != [] {
      KeysWithout(list[1..], k);
      if list[0].key != k {
        assert Without(list, k)[1..] == Without(list[1..], k);
      } else {
        assert Without(list, k) == Without(list[1..], k);
      }
      assert KeysOf(list)[1..] == KeysOf(list[1..]);
    }
  }

  lemma {:induction false} KeysWithoutAll(list: seq<Entry>, gone: set<string>)
    ensures KeysOf(WithoutAll(list, gone)) == DropAll(KeysOf(list), gone)
  {
    if list != [] {
      KeysWithoutAll(list[1..], gone);
      if list[0].key !in gone {
        assert WithoutAll(list, gone)[1..] == WithoutAll(list[1..], gone);
      } else {
        assert WithoutAll(list, gone) == WithoutAll(list[1..], gone);
      }
      assert KeysOf(list)[1..] == KeysOf(list[1..]);
    }
  }

  /** What the relation to the bounded map says about the list alone. */
  ghost predicate Sound(c: Cache) {
    && c.maxEntries >= 1 && |c.list| <= c.maxEntries && DistinctKeys(c.list)
    && forall i :: 0 <= i < |c.list| ==> ContentPath(c.list[i].key) in c.files
  }

  lemma RelSound(names: set<string>, c: Cache, b: BMap)
    requires Rel(names, c, b) && |c.list| <= c.maxEntries
    ensures Sound(c)
  {
  }

  lemma KeysOfFront(e: Entry, rest: seq<Entry>)
    ensures KeysOf([e] + rest) == [e.key] + KeysOf(rest)
  {
    assert ([e] + rest)[1..] == rest;
  }

  /** The keys that an operation looks at and finds expired. */
  function LapsedAt(c: Cache, op: Op): set<string> {
    match op
    case Get(k, now) => ExpiredKeys(c, now) * {k}
    case Prune(now, _) => ExpiredKeys(c, now)
    case _ => {}
  }

  lemma GetKeys(c: Cache, k: string, now: int)
    requires Sound(c)
    ensures KeysOf(Got(c, k, now).0.list) == KeysDo(KeysOf(c.list), c.maxEntries, Get(k, now), LapsedAt(c, Get(k, now)))
  {
    KeysWithout(c.list, k);
    if Holds(c.list, k) {
      var p := Position(c.list, k);
      WithoutAt(c.list, k, p);
      assert k in ExpiredKeys(c, now) <==> Expired(c, c.list[p], now);
      KeysOfFront(c.list[p].(accessedAt := now), Without(c.list, k));
    }
  }

  lemma RemoveKeys(c: Cache, k: string)
    ensures KeysOf(Removed(c, k).list) == Drop(KeysOf(c.list), k)
  {
    KeysWithout(c.list, k);
    DropFacts(KeysOf(c.list), k);
  }

  lemma EvictKeys(c: Cache)
    requires Sound(c)
    ensures KeysOf(Evicted(c).list) ==
              (if |c.list| < c.maxEntries then KeysOf(c.list) else KeysOf(c.list)[..|KeysOf(c.list)| - 1])
  {
    KeysOfAt(c.list);
    if |c.list| == c.maxEntries {
      var last := |c.list| - 1;
      var key := c.list[last].key;
      WithoutAt(c.list, key, last);
      assert Without(c.list, key) == c.list[..last];
      assert Evicted(c) == Removed(c, key);
      KeysOfAt(c.list[..last]);
    }
  }

  /** The key `k` has been put in front of `rest`. */
  ghost predicate PutInFront(placed: seq<Entry>, rest: seq<string>, k: string) {
    && KeysOf(placed) == [k] + rest
    && Holds(placed, k) && KeysOf(Without(placed, k)) == rest && Without(placed, k) == placed[1..]
  }

  lemma FrontOf(e: Entry, list: seq<Entry>)
    requires e.key !in KeysOf(list)
    ensures PutInFront([e] + list, KeysOf(list), e.key)
  {
    FrontAndBack(e, list);
    assert ([e] + list)[1..] == list;
  }

  lemma PlacedKeys(c: Cache, k: string, size: nat, now: int)
    requires Sound(c)
    ensures PutInFront(Placed(c, k, size, now).list, Beside(KeysOf(c.list), c.maxEntries, k), k)
  {
    KeysWithout(c.list, k);
    KeysOfAt(c.list);
    if Holds(c.list, k) {
      DropFacts(KeysOf(c.list), k);
      var p := Position(c.list, k);
      WithoutAt(c.list, k, p);
      FrontOf(c.list[p].(accessedAt := now, size := size), Without(c.list, k));
    } else {
      EvictKeys(c);
      FrontOf(Entry(k, k, size, now, now), Evicted(c).list);
    }
  }

  lemma PruneKeys(c: Cache, now: int, saved: bool)
    ensures KeysOf(AfterPrune(c, now, saved).list) == DropAll(KeysOf(c.list), ExpiredKeys(c, now))
  {
    KeysWithoutAll(c.list, ExpiredKeys(c, now));
    WithoutNone(c.list);
  }

  /** The keys of the cache move as `KeysDo` says. */
  lemma KeysFollow(c: Cache, op: Op)
    requires Sound(c)
    ensures KeysOf(Do(c, op).0.list) == KeysDo(KeysOf(c.list), c.maxEntries, op, LapsedAt(c, op))
  {
    match op
    case Get(k, now) => GetKeys(c, k, now);
    case Set(k, content, now, _, _) => PlacedKeys(c, k, |content|, now);
    case Delete(k, _) => RemoveKeys(c, k);
    case Prune(now, saved) => PruneKeys(c, now, saved);
    case Clear(_) =>
  }

  /** Taking a key out again right after it was put in front. */
  lemma FrontAndBack(e: Entry, rest: seq<Entry>)
    requires e.key !in KeysOf(rest)
    ensures KeysOf([e] + rest) == [e.key] + KeysOf(rest)
    ensures Holds([e] + rest, e.key) && Without([e] + rest, e.key) == rest
  {
  }

  // ---- the theorems ----

  /** The cache of capacity `max` after the first `i` operations. */
  ghost function At(max: int, ttl: int, ops: seq<Op>, i: nat): Cache
    requires max >= 1 && i <= |ops|
  {
    Run(Empty(max, ttl), ops[..i]).0
  }

  ghost predicate Within(small: Cache, large: Cache) {
    forall k :: Holds(small.list, k) ==> Holds(large.list, k)
  }

  /** Both caches give the same verdict on every key the smaller one holds. */
  ghost predicate SameVerdict(small: Cache, large: Cache, op: Op) {
    forall k :: Holds(small.list, k) ==> (k in LapsedAt(small, op) <==> k in LapsedAt(large, op))
  }

  /** The operation finds a key expired in the larger cache that the smaller one holds unexpired. */
  ghost predicate Splits(small: Cache, large: Cache, op: Op) {
    exists k :: Holds(small.list, k) && k in LapsedAt(large, op) && k !in LapsedAt(small, op)
  }

  ghost predicate WithinAt(m: int, m': int, ttl: int, ops: seq<Op>, i: nat)
    requires m >= 1 && m' >= 1 && i <= |ops|
  {
    Within(At(m, ttl, ops, i), At(m', ttl, ops, i))
  }

  ghost predicate SplitAt(m: int, m': int, ttl: int, ops: seq<Op>, i: nat)
    requires m >= 1 && m' >= 1 && i < |ops|
  {
    Splits(At(m, ttl, ops, i), At(m', ttl, ops, i), ops[i])
  }

  lemma AtNext(max: int, ttl: int, ops: seq<Op>, i: nat)
    requires max >= 1 && i < |ops|
    ensures At(max, ttl, ops, i + 1) == Do(At(max, ttl, ops, i), ops[i]).0
  {
    assert ops[..i + 1][..i] == ops[..i];
  }

  lemma AtSound(names: set<string>, max: int, ttl: int, ops: seq<Op>, i: nat)
    requires NamesDistinct(ContentPath, names) && max >= 1 && AllMention(ops, names) && i <= |ops|
    ensures Rel(names, At(max, ttl, ops, i), MapAfter(max, ttl, ops[..i])) && Sound(At(max, ttl, ops, i))
  {
    CacheRefinesMap(names, max, ttl, ops[..i]);
    RelSound(names, At(max, ttl, ops, i), MapAfter(max, ttl, ops[..i]));
  }

  ghost predicate CachesIncluded(small: Cache, large: Cache) {
    Included(KeysOf(small.list), KeysOf(large.list), small.maxEntries, large.maxEntries)
  }

  lemma IncludedWithin(small: Cache, large: Cache)
    requires CachesIncluded(small, large)
    ensures Within(small, large)
  {
    forall k | Holds(small.list, k) ensures Holds(large.list, k) {
      KeysWithout(small.list, k);
      KeysWithout(large.list, k);
      SubMember(KeysOf(small.list), KeysOf(large.list), k);
    }
  }

  lemma DoIncluded(small: Cache, large: Cache, op: Op)
    requires Sound(small) && Sound(large) && CachesIncluded(small, large) && SameVerdict(small, large, op)
    ensures CachesIncluded(Do(small, op).0, Do(large, op).0)
  {
    KeysFollow(small, op);
    KeysFollow(large, op);
    var s, b := KeysOf(small.list), KeysOf(large.list);
    forall k | k in s ensures k in LapsedAt(small, op) <==> k in LapsedAt(large, op) {
      KeysWithout(small.list, k);
    }
    StepIncluded(s, b, small.maxEntries, large.maxEntries, op, LapsedAt(small, op), LapsedAt(large, op));
  }

  /** Under any clock: as long as both caches give the same verdict on the keys they share, the smaller
      one is included in the larger one. */
  lemma {:induction false} SameVerdictIncludes(names: set<string>, m: int, m': int, ttl: int, ops: seq<Op>, i: nat)
    requires NamesDistinct(ContentPath, names) && 1 <= m <= m' && AllMention(ops, names) && i <= |ops|
    requires forall j :: 0 <= j < i ==> SameVerdict(At(m, ttl, ops, j), At(m', ttl, ops, j), ops[j])
    ensures CachesIncluded(At(m, ttl, ops, i), At(m', ttl, ops, i)) && WithinAt(m, m', ttl, ops, i)
  {
    if i > 0 {
      SameVerdictIncludes(names, m, m', ttl, ops, i - 1);
      AtSound(names, m, ttl, ops, i - 1);
      AtSound(names, m', ttl, ops, i - 1);
      DoIncluded(At(m, ttl, ops, i - 1), At(m', ttl, ops, i - 1), ops[i - 1]);
      AtNext(m, ttl, ops, i - 1);
      AtNext(m', ttl, ops, i - 1);
    }
    IncludedWithin(At(m, ttl, ops, i), At(m', ttl, ops, i));
  }

  /** Inclusion under any clock: over a trace in which no lookup and no prune meets an expired entry
      (writes may fail), what the smaller cache holds the larger one holds too. */
  lemma SmallerIsIncluded(names: set<string>, m: int, m': int, ttl: int, ops: seq<Op>, key: string)
    requires NamesDistinct(ContentPath, names) && 1 <= m <= m' && AllMention(ops, names)
    requires forall i :: 0 <= i < |ops| ==>
               LapsedAt(At(m, ttl, ops, i), ops[i]) == {} && LapsedAt(At(m', ttl, ops, i), ops[i]) == {}
    requires Holds(Run(Empty(m, ttl), ops).0.list, key)
    ensures Holds(Run(Empty(m', ttl), ops).0.list, key)
  {
    SameVerdictIncludes(names, m, m', ttl, ops, |ops|);
    assert ops[..|ops|] == ops;
  }

  // ---- with a clock that does not run backwards ----

  /** What both hold is no older in the smaller cache, and nothing was created after `t`. */
  ghost predicate Younger(small: BMap, large: BMap, t: int) {
    && (forall k :: k in small.cells && k in large.cells ==> small.cells[k].born >= large.cells[k].born)
    && (forall k :: k in large.cells ==> large.cells[k].born <= t)
  }

  lemma StepYounger(small: BMap, large: BMap, op: Op, t: int)
    requires Younger(small, large, t) && small.cells.Keys <= large.cells.Keys && t <= Clock(op, t)
    ensures Younger(BDo(small, op).0, BDo(large, op).0, Clock(op, t))
  {
    var small', large' := BDo(small, op).0, BDo(large, op).0;
    forall k | k in large'.cells
      ensures large'.cells[k].born <= Clock(op, t)
      ensures k in small'.cells ==> small'.cells[k].born >= large'.cells[k].born
    {
      StepPresence(large, op, k);
      StepContent(large, op, k);
      if k in small'.cells {
        StepPresence(small, op, k);
        StepContent(small, op, k);
      }
    }
  }

  lemma LapsedIsStale(names: set<string>, c: Cache, b: BMap, op: Op, k: string)
    requires Rel(names, c, b) && Holds(c.list, k)
    ensures k in LapsedAt(c, op) <==> ((op.Get? && op.key == k) || op.Prune?) && Stale(b, k, op.now)
  {
    RelKeys(ContentPath, c.list, c.files, b.cells, b.clock);
    var p := Position(c.list, k);
    assert EntryRel(ContentPath, c.list[p], c.files, b.cells, b.clock);
  }

  /** Then the verdicts can differ in one way only. */
  lemma VerdictOrSplit(names: set<string>, small: Cache, large: Cache, bs: BMap, bl: BMap, op: Op, t: int)
    requires Rel(names, small, bs) && Rel(names, large, bl) && small.ttl == large.ttl
    requires Younger(bs, bl, t) && Within(small, large)
    ensures SameVerdict(small, large, op) <==> !Splits(small, large, op)
  {
    forall k | Holds(small.list, k) && k in LapsedAt(small, op) ensures k in LapsedAt(large, op) {
      LapsedIsStale(names, small, bs, op, k);
      LapsedIsStale(names, large, bl, op, k);
      RelKeys(ContentPath, small.list, small.files, bs.cells, bs.clock);
      RelKeys(ContentPath, large.list, large.files, bl.cells, bl.clock);
    }
  }

  lemma {:induction false} UnsplitIncludes(names: set<string>, m: int, m': int, ttl: int, ops: seq<Op>, i: nat,
                                           start: int)
    requires NamesDistinct(ContentPath, names) && 1 <= m <= m' && AllMention(ops, names) && i <= |ops|
    requires Forward(ops[..i], start)
    requires forall j :: 0 <= j < i ==> !SplitAt(m, m', ttl, ops, j)
    ensures CachesIncluded(At(m, ttl, ops, i), At(m', ttl, ops, i)) && WithinAt(m, m', ttl, ops, i)
    ensures Younger(MapAfter(m, ttl, ops[..i]), MapAfter(m', ttl, ops[..i]), Now(ops[..i], start))
  {
    if i > 0 {
      var init, op := ops[..i - 1], ops[i - 1];
      assert ops[..i][..i - 1] == init;
      UnsplitIncludes(names, m, m', ttl, ops, i - 1, start);
      UnsplitStep(names, m, m', ttl, ops, i - 1, Now(init, start));
      assert MapAfter(m, ttl, ops[..i]) == BDo(MapAfter(m, ttl, init), op).0;
      assert MapAfter(m', ttl, ops[..i]) == BDo(MapAfter(m', ttl, init), op).0;
    }
    IncludedWithin(At(m, ttl, ops, i), At(m', ttl, ops, i));
  }

  lemma UnsplitStep(names: set<string>, m: int, m': int, ttl: int, ops: seq<Op>, i: nat, t: int)
    requires NamesDistinct(ContentPath, names) && 1 <= m <= m' && AllMention(ops, names) && i < |ops|
    requires CachesIncluded(At(m, ttl, ops, i), At(m', ttl, ops, i)) && WithinAt(m, m', ttl, ops, i)
    requires !SplitAt(m, m', ttl, ops, i)
    requires Younger(MapAfter(m, ttl, ops[..i]), MapAfter(m', ttl, ops[..i]), t) && t <= Clock(ops[i], t)
    ensures CachesIncluded(At(m, ttl, ops, i + 1), At(m', ttl, ops, i + 1))
    ensures Younger(BDo(MapAfter(m, ttl, ops[..i]), ops[i]).0, BDo(MapAfter(m', ttl, ops[..i]), ops[i]).0,
                    Clock(ops[i], t))
  {
    var small, large := At(m, ttl, ops, i), At(m', ttl, ops, i);
    var bs, bl := MapAfter(m, ttl, ops[..i]), MapAfter(m', ttl, ops[..i]);
    AtSound(names, m, ttl, ops, i);
    AtSound(names, m', ttl, ops, i);
    VerdictOrSplit(names, small, large, bs, bl, ops[i], t);
    DoIncluded(small, large, ops[i]);
    AtNext(m, ttl, ops, i);
    AtNext(m', ttl, ops, i);
    RelKeys(ContentPath, small.list, small.files, bs.cells, bs.clock);
    RelKeys(ContentPath, large.list, large.files, bl.cells, bl.clock);
    StepYounger(bs, bl, ops[i], t);
  }

  /** A split ends inclusion at once: the larger cache drops the key and the smaller one keeps it. */
  lemma SplitBreaks(small: Cache, large: Cache, op: Op)
    requires Sound(small) && Sound(large) && Splits(small, large, op)
    ensures !Within(Do(small, op).0, Do(large, op).0)
  {
    var k :| Holds(small.list, k) && k in LapsedAt(large, op) && k !in LapsedAt(small, op);
    KeysFollow(small, op);
    KeysFollow(large, op);
    KeysWithout(small.list, k);
    KeysWithout(Do(small, op).0.list, k);
    KeysWithout(Do(large, op).0.list, k);
    DropAllFacts(KeysOf(small.list), LapsedAt(small, op));
    DropAllFacts(KeysOf(large.list), LapsedAt(large, op));
    DropFacts(KeysOf(large.list), k);
  }

  lemma SplitBreaksAt(names: set<string>, m: int, m': int, ttl: int, ops: seq<Op>, i: nat)
    requires NamesDistinct(ContentPath, names) && 1 <= m <= m' && AllMention(ops, names) && i < |ops|
    requires SplitAt(m, m', ttl, ops, i)
    ensures !WithinAt(m, m', ttl, ops, i + 1)
  {
    AtSound(names, m, ttl, ops, i);
    AtSound(names, m', ttl, ops, i);
    SplitBreaks(At(m, ttl, ops, i), At(m', ttl, ops, i), ops[i]);
    AtNext(m, ttl, ops, i);
    AtNext(m', ttl, ops, i);
  }

  /** Exactly when inclusion holds, with a clock that does not run backwards: the smaller cache is
      included in the larger one throughout a trace if and only if no lookup or prune finds a key
      expired in the larger cache that the smaller one holds unexpired. */
  lemma IncludedIffNeverSplit(names: set<string>, m: int, m': int, ttl: int, ops: seq<Op>, start: int)
    requires NamesDistinct(ContentPath, names) && 1 <= m <= m' && AllMention(ops, names) && Forward(ops, start)
    ensures (forall i :: 0 <= i <= |ops| ==> WithinAt(m, m', ttl, ops, i)) <==>
            (forall i :: 0 <= i < |ops| ==> !SplitAt(m, m', ttl, ops, i))
  {
    if i :| 0 <= i < |ops| && SplitAt(m, m', ttl, ops, i) {
      SplitBreaksAt(names, m, m', ttl, ops, i);
    } else {
      forall i | 0 <= i <= |ops| ensures WithinAt(m, m', ttl, ops, i) {
        ForwardPrefix(ops, start, i);
        UnsplitIncludes(names, m, m', ttl, ops, i, start);
      }
    }
  }

  /** So it is enough that the larger cache never meets an expired entry. */
  lemma LargerUnexpiredIncludes(names: set<string>, m: int, m': int, ttl: int, ops: seq<Op>, start: int, key: string)
    requires NamesDistinct(ContentPath, names) && 1 <= m <= m' && AllMention(ops, names) && Forward(ops, start)
    requires forall i :: 0 <= i < |ops| ==> LapsedAt(At(m', ttl, ops, i), ops[i]) == {}
    requires Holds(Run(Empty(m, ttl), ops).0.list, key)
    ensures Holds(Run(Empty(m', ttl), ops).0.list, key)
  {
    IncludedIffNeverSplit(names, m, m', ttl, ops, start);
    assert WithinAt(m, m', ttl, ops, |ops|);
    assert ops[..|ops|] == ops;
  }

  // ---- the hypothesis is needed ----

  lemma RunFour(c: Cache, ops: seq<Op>)
    requires c.maxEntries >= 1 && |ops| == 4
    ensures Run(c, ops).0 == Do(Do(Do(Do(c, ops[0]).0, ops[1]).0, ops[2]).0, ops[3]).0
  {
    assert ops[..3][..2] == ops[..2] && ops[..2][..1] == ops[..1] && ops[..1][..0] == [];
    assert Run(c, ops[..1]).0 == Do(c, ops[0]).0;
    assert Run(c, ops[..2]).0 == Do(Run(c, ops[..1]).0, ops[1]).0;
    assert Run(c, ops[..3]).0 == Do(Run(c, ops[..2]).0, ops[2]).0;
  }

  function ExpiryTrace(): seq<Op> {
    [Set("a", [], 0, true, true), Set("b", [], 1, true, true), Set("a", [], 8, true, true), Get("a", 11)]
  }

  /** With expiry inclusion fails: an evicted and re-set key is younger in the small cache than in the
      large one, which never lost it, so the large cache drops it first. */
  lemma ExpiryBreaksInclusion()
    ensures Holds(Run(Empty(1, 10), ExpiryTrace()).0.list, "a")
    ensures !Holds(Run(Empty(2, 10), ExpiryTrace()).0.list, "a")
  {
    RunFour(Empty(1, 10), ExpiryTrace());
    RunFour(Empty(2, 10), ExpiryTrace());
    SmallRun(ExpiryTrace());
    LargeRun(ExpiryTrace());
  }

  lemma SmallRun(ops: seq<Op>)
    requires ops == ExpiryTrace()
    ensures Holds(Do(Do(Do(Do(Empty(1, 10), ops[0]).0, ops[1]).0, ops[2]).0, ops[3]).0.list, "a")
  {
    var c1 := Do(Empty(1, 10), ops[0]).0;
    var a0, b1, a8 := Entry("a", "a", 0, 0, 0), Entry("b", "b", 0, 1, 1), Entry("a", "a", 0, 8, 8);
    assert c1.list == [a0];
    EvictSingle(c1, a0);
    var c2 := Do(c1, ops[1]).0;
    assert c2.list == [b1];
    EvictSingle(c2, b1);
    var c3 := Do(c2, ops[2]).0;
    assert c3.list == [a8] && c3.list[0].key == "a";
    var c4 := Do(c3, ops[3]).0;
    assert c4.list[0].key == "a";
  }

  lemma EvictSingle(c: Cache, e: Entry)
    requires c.maxEntries == 1 && c.list == [e]
    ensures Evicted(c).list == []
  {
  }

  /** Setting the older of two keys again moves it to the front, and it keeps its creation time. */
  lemma SetAgain(c: Cache, now: int)
    requires c.maxEntries == 2 && c.list == [Entry("b", "b", 0, 1, 1), Entry("a", "a", 0, 0, 0)]
    ensures Do(c, Set("a", [], now, true, true)).0.list == [Entry("a", "a", 0, 0, now), Entry("b", "b", 0, 1, 1)]
  {
    WithoutAt(c.list, "a", 1);
    assert c.list[..1] + c.list[2..] == [Entry("b", "b", 0, 1, 1)];
  }

  lemma LargeStart(c: Cache)
    requires c == Empty(2, 10)
    ensures Do(Do(c, ExpiryTrace()[0]).0, ExpiryTrace()[1]).0.list ==
              [Entry("b", "b", 0, 1, 1), Entry("a", "a", 0, 0, 0)]
  {
    assert Do(c, ExpiryTrace()[0]).0.list == [Entry("a", "a", 0, 0, 0)];
  }

  lemma LargeRun(ops: seq<Op>)
    requires ops == ExpiryTrace()
    ensures !Holds(Do(Do(Do(Do(Empty(2, 10), ops[0]).0, ops[1]).0, ops[2]).0, ops[3]).0.list, "a")
  {
    LargeStart(Empty(2, 10));
    var c2 := Do(Do(Empty(2, 10), ops[0]).0, ops[1]).0;
    SetAgain(c2, 8);
    var c3 := Do(c2, ops[2]).0;
    assert c3.list[0].key == "a";
    WithoutHolds(c3.list, "a", "a");
  }
}
