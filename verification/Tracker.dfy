/** The inventory of applied resources (pkg/inventory/tracker.go). */
module Inventory {
  import opened Common

  datatype ItemStatus = Applied | Adopted | Orphaned | Pruned | Failed

  /** Where a resource lives: kind, namespace and name. */
  datatype Ref = Ref(gvk: string, namespace: string, name: string)

  datatype Item = Item(id: string, ref: Ref, hash: string, status: ItemStatus)

  /** Items are keyed by their ID. */
  type Items = map<string, Item>

  ghost predicate WellKeyed(items: Items) {
    forall id :: id in items ==> items[id].id == id
  }

  // ---- the order of IDs ----

  /** Lexicographic order. */
  predicate Less(a: string, b: string) {
    b != "" && (a == "" || a[0] < b[0] || (a[0] == b[0] && Less(a[1..], b[1..])))
  }

  /** `a` is a proper prefix of `b`, or at the first place where they differ `a` has the smaller character. */
  ghost predicate Before(a: string, b: string, k: nat) {
    && k <= |a| && k < |b| && a[..k] == b[..k]
    && (k == |a| || a[k] < b[k])
  }

  lemma {:induction false} LessMeaning(a: string, b: string)
    ensures Less(a, b) <==> exists k: nat :: Before(a, b, k)
  {
    if a != "" && b != "" && a[0] == b[0] {
      LessMeaning(a[1..], b[1..]);
      if Less(a[1..], b[1..]) {
        var k: nat :| Before(a[1..], b[1..], k);
        assert a[..k + 1] == [a[0]] + a[1..][..k] && b[..k + 1] == [b[0]] + b[1..][..k];
        assert Before(a, b, k + 1);
      }
      if k: nat :| Before(a, b, k) {
        assert k > 0 && a[1..][..k - 1] == a[..k][1..] && b[1..][..k - 1] == b[..k][1..];
        assert Before(a[1..], b[1..], k - 1);
      }
    } else {
      if Less(a, b) {
        assert Before(a, b, 0);
      }
      if k: nat :| Before(a, b, k) {
        assert k > 0 ==> a[..k][0] == b[..k][0];
      }
    }
  }

  lemma {:induction false} LessTotal(a: string, b: string)
    ensures a == b || Less(a, b) || Less(b, a)
    ensures !(Less(a, b) && Less(b, a)) && !Less(a, a)
  {
    if a != "" && b != "" && a[0] == b[0] {
      LessTotal(a[1..], b[1..]);
      if a[1..] == b[1..] {
        assert a == [a[0]] + a[1..] && b == [b[0]] + b[1..];
      }
    }
    if a != "" {
      LessTotal(a[1..], a[1..]);
    }
  }

  lemma {:induction false} LessTransitive(a: string, b: string, c: string)
    requires Less(a, b) && Less(b, c)
    ensures Less(a, c)
  {
    if a != "" && a[0] == b[0] && b[0] == c[0] {
      LessTransitive(a[1..], b[1..], c[1..]);
    }
  }

  ghost predicate SortedById(l: seq<Item>) {
    forall i, j :: 0 <= i < j < |l| ==> Less(l[i].id, l[j].id)
  }

  // ---- sorting ----

  ghost predicate NonDecreasing(l: seq<Item>) {
    forall i, j :: 0 <= i < j < |l| ==> !Less(l[j].id, l[i].id)
  }

  /** `p` lists the positions below `n`, each once. */
  ghost predicate Permutation(p: seq<nat>, n: nat) {
    |p| == n && Distinct(p) && (forall i :: 0 <= i < n ==> p[i] < n) && forall k: nat :: k < n ==> k in p
  }

  function InsertAt<T>(s: seq<T>, at: nat, x: T): seq<T>
    requires at <= |s|
  {
    s[..at] + [x] + s[at..]
  }

  lemma InsertKeepsOrder(l: seq<Item>, at: nat, x: Item)
    requires NonDecreasing(l) && at <= |l|
    requires forall i :: 0 <= i < at ==> !Less(x.id, l[i].id)
    requires at < |l| ==> Less(x.id, l[at].id)
    ensures NonDecreasing(InsertAt(l, at, x))
  {
    forall i | at <= i < |l| ensures !Less(l[i].id, x.id) {
      LessTotal(l[i].id, x.id);
      if Less(l[i].id, x.id) {
        LessTransitive(l[i].id, x.id, l[at].id);
      }
    }
  }

  lemma InsertPermutes(p: seq<nat>, n: nat, at: nat)
    requires Permutation(p, n) && at <= n
    ensures Permutation(InsertAt(p, at, n), n + 1)
  {
    var q := InsertAt(p, at, n);
    forall k: nat | k < n + 1 ensures k in q {
      if k == n {
        assert q[at] == n;
      } else {
        assert k in p;
        var i :| 0 <= i < n && p[i] == k;
        assert q[if i < at then i else i + 1] == k;
      }
    }
  }

  /** `sort.Slice` by ID; `p` tells where each element came from. */
  method SortById(l: seq<Item>) returns (sorted: seq<Item>, ghost p: seq<nat>)
    ensures |sorted| == |l| && NonDecreasing(sorted)
    ensures Permutation(p, |l|) && forall i :: 0 <= i < |l| ==> sorted[i] == l[p[i]]
  {
    sorted, p := [], [];
    for k := 0 to |l|
      invariant |sorted| == k && NonDecreasing(sorted)
      invariant Permutation(p, k) && forall i :: 0 <= i < k ==> sorted[i] == l[p[i]]
    {
      var at := 0;
      while at < |sorted| && !Less(l[k].id, sorted[at].id)
        invariant at <= |sorted| && forall i :: 0 <= i < at ==> !Less(l[k].id, sorted[i].id)
      {
        at := at + 1;
      }
      InsertKeepsOrder(sorted, at, l[k]);
      InsertPermutes(p, k, at);
      sorted, p := InsertAt(sorted, at, l[k]), InsertAt(p, at, k);
    }
  }

  // ---- orphans ----

  /** In the inventory, not already pruned, and no longer in the graph. */
  predicate IsOrphan(items: Items, current: set<string>, id: string) {
    id in items && items[id].status != Pruned && id !in current
  }

  function Marked(item: Item): Item {
    item.(status := Orphaned)
  }

  /** What `FindOrphaned` returns: every orphan once, marked as such, sorted by ID. */
  ghost predicate OrphanList(items: Items, current: set<string>, l: seq<Item>) {
    && SortedById(l)
    && (forall i :: 0 <= i < |l| ==> IsOrphan(items, current, l[i].id) && l[i] == Marked(items[l[i].id]))
    && (forall id :: IsOrphan(items, current, id) ==> exists i :: 0 <= i < |l| && l[i].id == id)
  }

  /** The same for any inventory, where an item may be stored under another ID: `keys` tells under
      which key each item was found. */
  ghost predicate OrphansUnder(items: Items, current: set<string>, l: seq<Item>, keys: seq<string>) {
    && |keys| == |l| && Distinct(keys)
    && (forall i :: 0 <= i < |l| ==> IsOrphan(items, current, keys[i]) && l[i] == Marked(items[keys[i]]))
    && (forall id :: IsOrphan(items, current, id) ==> id in keys)
  }

  ghost predicate OrphanItems(items: Items, current: set<string>, l: seq<Item>, keys: seq<string>) {
    OrphansUnder(items, current, l, keys) && NonDecreasing(l)
  }

  /** Sorting the orphans permutes the keys they were found under. */
  lemma PermutedKeys(items: Items, current: set<string>, found: seq<Item>, from: seq<string>,
                     l: seq<Item>, p: seq<nat>) returns (keys: seq<string>)
    requires OrphansUnder(items, current, found, from) && |l| == |found| && Permutation(p, |l|)
    requires forall i :: 0 <= i < |l| ==> l[i] == found[p[i]]
    ensures OrphansUnder(items, current, l, keys)
  {
    keys := seq(|p|, i requires 0 <= i < |p| => from[p[i]]);
    forall id | id in from ensures id in keys {
      var k :| 0 <= k < |from| && from[k] == id;
      assert k in p;
      var i :| 0 <= i < |p| && p[i] == k;
      assert keys[i] == id;
    }
  }

  lemma WellKeyedOrphans(items: Items, current: set<string>, l: seq<Item>, keys: seq<string>)
    requires WellKeyed(items) && OrphanItems(items, current, l, keys)
    ensures OrphanList(items, current, l)
  {
    forall i, j | 0 <= i < j < |l| ensures Less(l[i].id, l[j].id) {
      LessTotal(l[i].id, l[j].id);
    }
  }

  lemma FirstIsMember(l: seq<Item>)
    ensures l == [] || l[0] in l
  {
  }

  /** A sorted list is determined by its members, so iteration order over the map does not matter. */
  lemma {:induction false} SortedUnique(a: seq<Item>, b: seq<Item>)
    requires SortedById(a) && SortedById(b) && forall x :: x in a <==> x in b
    ensures a == b
  {
    FirstIsMember(a);
    FirstIsMember(b);
    if a != [] {
      assert a[0] in b && b[0] in a;
      var i :| 0 <= i < |b| && b[i] == a[0];
      var j :| 0 <= j < |a| && a[j] == b[0];
      if i > 0 && j > 0 {
        LessTotal(a[0].id, b[0].id);
      }
      LessTotal(a[0].id, a[0].id);
      assert a[0] == b[0];
      forall x ensures x in a[1..] <==> x in b[1..] {
        TailMember(a, x);
        TailMember(b, x);
      }
      SortedUnique(a[1..], b[1..]);
    }
  }

  lemma TailMember(a: seq<Item>, x: Item)
    requires SortedById(a) && a != []
    ensures x in a[1..] <==> x in a && x != a[0]
  {
    LessTotal(a[0].id, a[0].id);
    assert a == [a[0]] + a[1..];
  }

  lemma OrphanListUnique(items: Items, current: set<string>, a: seq<Item>, b: seq<Item>)
    requires OrphanList(items, current, a) && OrphanList(items, current, b)
    ensures a == b
  {
    OrphanMembers(items, current, a, b);
    OrphanMembers(items, current, b, a);
    SortedUnique(a, b);
  }

  lemma OrphanMembers(items: Items, current: set<string>, a: seq<Item>, b: seq<Item>)
    requires OrphanList(items, current, a) && OrphanList(items, current, b)
    ensures forall x :: x in a ==> x in b
  {
  }

  // ---- the tracker ----

  function AfterRemove(items: Items, id: string): Items {
    items - {id}
  }

  function AfterPruned(items: Items, id: string): Items {
    if id in items then items[id := items[id].(status := Pruned)] else items
  }

  function AfterMark(items: Items, ids: set<string>): Items {
    map id | id in items :: if id in ids then Marked(items[id]) else items[id]
  }

  class Tracker {
    var items: Items
    var generation: int

    constructor ()
      ensures items == map[] && generation == 0
    {
      items, generation := map[], 0;
    }

    /** `RecordApplied`, `RecordAdopted` and `RecordFailed`, which differ only in the status. */
    method Record(id: string, ref: Ref, hash: string, status: ItemStatus) returns (item: Item)
      modifies this
      ensures item == Item(id, ref, hash, status) && items == old(items)[id := item]
      ensures generation == old(generation) + 1
      ensures old(WellKeyed(items)) ==> WellKeyed(items)
    {
      item := Item(id, ref, hash, status);
      items := items[id := item];
      generation := generation + 1;
    }

    method RecordPruned(id: string)
      modifies this
      ensures items == AfterPruned(old(items), id)
      ensures items.Keys == old(items).Keys && forall x :: x in items ==>
                items[x] == (if x == id then old(items)[x].(status := Pruned) else old(items)[x])
      ensures generation == old(generation) + (if id in old(items) then 1 else 0)
    {
      if id in items {
        items := items[id := items[id].(status := Pruned)];
        generation := generation + 1;
      }
    }

    method Remove(id: string)
      modifies this
      ensures items == AfterRemove(old(items), id) && generation == old(generation) + 1
      ensures forall x :: x in items <==> x in old(items) && x != id
      ensures forall x :: x in items ==> items[x] == old(items)[x]
    {
      items := items - {id};
      generation := generation + 1;
    }

    method MarkOrphaned(ids: seq<string>)
      modifies this
      ensures items == AfterMark(old(items), set i | 0 <= i < |ids| :: ids[i])
      ensures items.Keys == old(items).Keys && forall x :: x in items ==>
                items[x] == (if x in ids then old(items)[x].(status := Orphaned) else old(items)[x])
      ensures generation == old(generation) + 1
    {
      for k := 0 to |ids|
        invariant items == AfterMark(old(items), set i | 0 <= i < k :: ids[i]) && generation == old(generation)
      {
        var id := ids[k];
        if id in items {
          items := items[id := items[id].(status := Orphaned)];
        }
      }
      generation := generation + 1;
    }

    /** The orphans in the order in which the map is visited, and the keys they were found under. */
    method CollectOrphans(current: set<string>) returns (found: seq<Item>, ghost keys: seq<string>)
      ensures OrphansUnder(items, current, found, keys)
    {
      found, keys := [], [];
      var todo := items.Keys;
      while todo != {}
        invariant todo <= items.Keys && |keys| == |found| && Distinct(keys)
        invariant forall i :: 0 <= i < |keys| ==>
                    keys[i] !in todo && IsOrphan(items, current, keys[i]) && found[i] == Marked(items[keys[i]])
        invariant forall id :: IsOrphan(items, current, id) && id !in todo ==> id in keys
        decreases todo
      {
        var id :| id in todo;
        var item := items[id];
        if item.status != Pruned && id !in current {
          found, keys := found + [Marked(item)], keys + [id];
        }
        todo := todo - {id};
      }
    }

    /** Goes over the map in any order, then sorts. */
    method FindOrphaned(current: set<string>) returns (orphaned: seq<Item>, ghost keys: seq<string>)
      ensures OrphanItems(items, current, orphaned, keys)
      ensures WellKeyed(items) ==> OrphanList(items, current, orphaned)
      ensures forall id :: id in keys <==> id in items && items[id].status != Pruned && id !in current
      ensures forall i :: 0 <= i < |orphaned| ==>
                orphaned[i] == Item(items[keys[i]].id, items[keys[i]].ref, items[keys[i]].hash, Orphaned)
    {
      var found;
      ghost var from;
      found, from := CollectOrphans(current);
      ghost var p;
      orphaned, p := SortById(found);
      keys := PermutedKeys(items, current, found, from, orphaned, p);
      if WellKeyed(items) {
        WellKeyedOrphans(items, current, orphaned, keys);
      }
    }
  }
}
