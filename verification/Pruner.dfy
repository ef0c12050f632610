/** Pruning orphaned resources (pkg/apply/pruner.go). The cluster is a map of objects; reads and
    deletes can fail, and the duration parser is a parameter. */
module Pruner {
  import opened Common
  import opened Inventory

  datatype Policy = DeleteOrphans | KeepOrphans | Unknown

  datatype Options = Options(policy: Policy, grace: int, dryRun: bool)

  /** `created` is missing when the creation timestamp is zero. */
  datatype Obj = Obj(annotations: map<string, string>, created: Option<int>)

  type Objects = map<Ref, Obj>

  /** The circumstances of one call: options, clock, failing references, the duration parser. */
  datatype Call = Call(opts: Options, now: int, getFails: set<Ref>, deleteFails: set<Ref>, parse: string -> Option<int>)

  const PROTECTION := "pequod.io/prune-protection"
  const GRACE_PERIOD := "pequod.io/prune-grace-period"

  predicate IsProtected(o: Obj) {
    PROTECTION in o.annotations && o.annotations[PROTECTION] in ["true", "yes", "1"]
  }

  /** An annotation that does not parse leaves the default in force. */
  function GraceOf(c: Call, o: Obj): int {
    if GRACE_PERIOD in o.annotations && c.parse(o.annotations[GRACE_PERIOD]).Some?
    then c.parse(o.annotations[GRACE_PERIOD]).value
    else c.opts.grace
  }

  predicate GraceExpired(c: Call, o: Obj) {
    o.created.Some? ==> c.now - o.created.value > GraceOf(c, o)
  }

  // ---- one orphan ----

  /** What happens to an orphan. `Left` only occurs with an unknown policy. */
  datatype Fate = Gone | ReadError | Shielded | InGrace | WouldDelete | Deleted | DeleteError | Released | Left

  function FateOf(c: Call, objects: Objects, ref: Ref): Fate {
    if ref in c.getFails then ReadError
    else if ref !in objects then Gone
    else if IsProtected(objects[ref]) then Shielded
    else if !GraceExpired(c, objects[ref]) then InGrace
    else match c.opts.policy
      case DeleteOrphans => if c.opts.dryRun then WouldDelete else if ref in c.deleteFails then DeleteError else Deleted
      case KeepOrphans => Released
      case Unknown => Left
  }

  /** The lists of a `PruneResult`. */
  datatype Report = Report(pruned: seq<Item>, shielded: seq<Item>, released: seq<Item>, errors: seq<Item>)

  datatype Scene = Scene(items: Items, objects: Objects, report: Report)

  function Handle(c: Call, s: Scene, item: Item): Scene {
    match FateOf(c, s.objects, item.ref)
    case Gone => s.(items := AfterRemove(s.items, item.id))
    case ReadError => s.(report := s.report.(errors := s.report.errors + [item]))
    case Shielded => s.(report := s.report.(shielded := s.report.shielded + [item]))
    case InGrace => s
    case WouldDelete => s.(report := s.report.(pruned := s.report.pruned + [item]))
    case Deleted => Scene(AfterPruned(s.items, item.id), s.objects - {item.ref},
                          s.report.(pruned := s.report.pruned + [item]))
    case DeleteError => s.(report := s.report.(errors := s.report.errors + [item]))
    case Released => s.(items := AfterRemove(s.items, item.id),
                        report := s.report.(released := s.report.released + [item]))
    case Left => s
  }

  /** The orphans handled one after another. */
  function HandleAll(c: Call, s: Scene, l: seq<Item>): Scene {
    if l == [] then s else Handle(c, HandleAll(c, s, l[..|l| - 1]), l[|l| - 1])
  }

  const EMPTY := Report([], [], [], [])

  class Cluster {
    var objects: Objects
  }

  /** The body of the loop in `Prune`. */
  method PruneOne(c: Call, tracker: Tracker, cluster: Cluster, item: Item, r: Report) returns (report: Report)
    modifies tracker, cluster
    ensures Scene(tracker.items, cluster.objects, report) ==
              Handle(c, Scene(old(tracker.items), old(cluster.objects), r), item)
    ensures old(WellKeyed(tracker.items)) ==> WellKeyed(tracker.items)
  {
    report := r;
    if item.ref in c.getFails {
      report := r.(errors := r.errors + [item]);
      return;
    }
    if item.ref !in cluster.objects {
      tracker.Remove(item.id);
      return;
    }
    var o := cluster.objects[item.ref];
    if IsProtected(o) {
      report := r.(shielded := r.shielded + [item]);
      return;
    }
    if !GraceExpired(c, o) {
      return;
    }
    match c.opts.policy {
      case DeleteOrphans =>
        if c.opts.dryRun {
          report := r.(pruned := r.pruned + [item]);
        } else if item.ref in c.deleteFails {
          report := r.(errors := r.errors + [item]);
        } else {
          cluster.objects := cluster.objects - {item.ref};
          tracker.RecordPruned(item.id);
          report := r.(pruned := r.pruned + [item]);
        }
      case KeepOrphans =>
        tracker.Remove(item.id);
        report := r.(released := r.released + [item]);
      case Unknown =>
    }
  }

  /** `Prune`. */
  method Prune(c: Call, tracker: Tracker, cluster: Cluster, current: set<string>)
    returns (report: Report, ghost orphans: seq<Item>, ghost keys: seq<string>)
    modifies tracker, cluster
    ensures OrphanItems(old(tracker.items), current, orphans, keys)
    ensures old(WellKeyed(tracker.items)) ==>
              OrphanList(old(tracker.items), current, orphans) && WellKeyed(tracker.items)
    ensures Scene(tracker.items, cluster.objects, report) ==
              HandleAll(c, Scene(old(tracker.items), old(cluster.objects), EMPTY), orphans)
  {
    report := EMPTY;
    var found;
    found, keys := tracker.FindOrphaned(current);
    orphans := found;
    ghost var start := Scene(tracker.items, cluster.objects, EMPTY);
    for k := 0 to |found|
      invariant Scene(tracker.items, cluster.objects, report) == HandleAll(c, start, found[..k])
      invariant old(WellKeyed(tracker.items)) ==> WellKeyed(tracker.items)
    {
      assert found[..k + 1][..k] == found[..k];
      report := PruneOne(c, tracker, cluster, found[k], report);
    }
    assert found[..|found|] == found;
  }

  // ---- outcomes ----

  /** The fate of each orphan, decided when its turn comes. */
  function Fates(c: Call, s: Scene, l: seq<Item>): (fs: seq<Fate>)
    ensures |fs| == |l|
  {
    if l == [] then []
    else
      var init, last := l[..|l| - 1], l[|l| - 1];
      Fates(c, s, init) + [FateOf(c, HandleAll(c, s, init).objects, last.ref)]
  }

  lemma {:induction false} FateWhenItsTurnComes(c: Call, s: Scene, l: seq<Item>, i: nat)
    requires i < |l|
    ensures Fates(c, s, l)[i] == FateOf(c, HandleAll(c, s, l[..i]).objects, l[i].ref)
    decreases |l|
  {
    if i < |l| - 1 {
      FateWhenItsTurnComes(c, s, l[..|l| - 1], i);
      assert l[..|l| - 1][..i] == l[..i];
    }
  }

  /** The orphans with one of the given fates, in order. */
  function Picked(l: seq<Item>, fs: seq<Fate>, fates: set<Fate>): seq<Item>
    requires |fs| == |l|
  {
    if l == [] then []
    else Picked(l[..|l| - 1], fs[..|l| - 1], fates) + (if fs[|l| - 1] in fates then [l[|l| - 1]] else [])
  }

  const PRUNED := {WouldDelete, Deleted}
  const FAILED := {ReadError, DeleteError}

  /** Each list of the report holds exactly the orphans whose fate belongs there, in order. */
  lemma {:induction false} ReportExact(c: Call, s: Scene, l: seq<Item>)
    requires s.report == EMPTY
    ensures HandleAll(c, s, l).report ==
              var fs := Fates(c, s, l);
              Report(Picked(l, fs, PRUNED), Picked(l, fs, {Shielded}), Picked(l, fs, {Released}), Picked(l, fs, FAILED))
    decreases |l|
  {
    if l != [] {
      var init := l[..|l| - 1];
      ReportExact(c, s, init);
      assert Fates(c, s, l)[..|l| - 1] == Fates(c, s, init);
    }
  }

  /** How often an item occurs. */
  function Times(l: seq<Item>, item: Item): nat {
    multiset(l)[item]
  }

  lemma TimesAppend(l: seq<Item>, x: Item, item: Item)
    ensures Times(l + [x], item) == Times(l, item) + (if x == item then 1 else 0)
  {
  }

  /** How often an item occurs with one of the given fates. */
  function Fated(l: seq<Item>, fs: seq<Fate>, fates: set<Fate>, item: Item): nat
    requires |fs| == |l|
  {
    if l == [] then 0
    else Fated(l[1..], fs[1..], fates, item) + One(fs[0], fates, l[0] == item)
  }

  function One(f: Fate, fates: set<Fate>, same: bool): nat {
    if same && f in fates then 1 else 0
  }

  lemma OneAltogether(f: Fate, same: bool)
    requires f != Left
    ensures One(f, PRUNED, same) + One(f, {Shielded}, same) + One(f, {Released}, same) + One(f, FAILED, same)
              + One(f, {Gone, InGrace}, same) == if same then 1 else 0
  {
  }

  lemma {:induction false} FatedMore(l: seq<Item>, fs: seq<Fate>, fates: set<Fate>, item: Item)
    requires |fs| == |l| > 0
    ensures var n := |l| - 1;
            Fated(l, fs, fates, item) ==
              Fated(l[..n], fs[..n], fates, item) + One(fs[n], fates, l[n] == item)
  {
    var n := |l| - 1;
    if n > 0 {
      FatedMore(l[1..], fs[1..], fates, item);
      assert l[1..][..n - 1] == l[..n][1..] && fs[1..][..n - 1] == fs[..n][1..];
    }
  }

  lemma {:induction false} PickedTimes(l: seq<Item>, fs: seq<Fate>, fates: set<Fate>, item: Item)
    requires |fs| == |l|
    ensures Times(Picked(l, fs, fates), item) == Fated(l, fs, fates, item)
    decreases |l|
  {
    if l != [] {
      var n := |l| - 1;
      PickedTimes(l[..n], fs[..n], fates, item);
      FatedMore(l, fs, fates, item);
      TimesAppend(Picked(l[..n], fs[..n], fates), l[n], item);
    }
  }

  /** The fates divide the orphans among the lists of the report and those it does not mention. */
  lemma {:induction false} FatesPartition(l: seq<Item>, fs: seq<Fate>, item: Item)
    requires |fs| == |l| && forall i :: 0 <= i < |l| ==> fs[i] != Left
    ensures Fated(l, fs, PRUNED, item) + Fated(l, fs, {Shielded}, item) + Fated(l, fs, {Released}, item)
              + Fated(l, fs, FAILED, item) + Fated(l, fs, {Gone, InGrace}, item) == Times(l, item)
  {
    if l != [] {
      FatesPartition(l[1..], fs[1..], item);
      TimesPrepend(l[0], l[1..], item);
      assert l == [l[0]] + l[1..];
      OneAltogether(fs[0], l[0] == item);
    }
  }

  lemma TimesPrepend(x: Item, l: seq<Item>, item: Item)
    ensures Times([x] + l, item) == Times(l, item) + (if x == item then 1 else 0)
  {
  }

  lemma NoneLeft(c: Call, s: Scene, l: seq<Item>)
    requires c.opts.policy != Unknown
    ensures forall i :: 0 <= i < |l| ==> Fates(c, s, l)[i] != Left
  {
    forall i | 0 <= i < |l| ensures Fates(c, s, l)[i] != Left {
      FateWhenItsTurnComes(c, s, l, i);
    }
  }

  /** With a known policy, every orphan of any inventory has exactly one outcome: the lists of the report
      and the orphans that are gone or in their grace period together hold each orphan as often as the
      orphan list does. */
  lemma OneOutcomeEach(c: Call, s: Scene, l: seq<Item>, item: Item)
    requires s.report == EMPTY && c.opts.policy != Unknown
    ensures var r, unlisted := HandleAll(c, s, l).report, Picked(l, Fates(c, s, l), {Gone, InGrace});
            Times(r.pruned, item) + Times(r.shielded, item) + Times(r.released, item) + Times(r.errors, item)
              + Times(unlisted, item) == Times(l, item)
  {
    ReportExact(c, s, l);
    NoneLeft(c, s, l);
    var fs := Fates(c, s, l);
    FatesPartition(l, fs, item);
    PickedTimes(l, fs, PRUNED, item);
    PickedTimes(l, fs, {Shielded}, item);
    PickedTimes(l, fs, {Released}, item);
    PickedTimes(l, fs, FAILED, item);
    PickedTimes(l, fs, {Gone, InGrace}, item);
  }

  ghost predicate Listed(l: seq<Item>, fs: seq<Fate>, item: Item, fates: set<Fate>)
    requires |fs| == |l|
  {
    exists i :: 0 <= i < |l| && l[i] == item && fs[i] in fates
  }

  lemma {:induction false} PickedMembers(l: seq<Item>, fs: seq<Fate>, fates: set<Fate>, item: Item)
    requires |fs| == |l|
    ensures item in Picked(l, fs, fates) <==> Listed(l, fs, item, fates)
    decreases |l|
  {
    if l != [] {
      var n := |l| - 1;
      PickedMembers(l[..n], fs[..n], fates, item);
      if Listed(l[..n], fs[..n], item, fates) {
        var i :| 0 <= i < n && l[..n][i] == item && fs[..n][i] in fates;
        assert l[i] == item && fs[i] in fates;
      }
      if Listed(l, fs, item, fates) {
        var i :| 0 <= i < |l| && l[i] == item && fs[i] in fates;
        assert i < n ==> l[..n][i] == item && fs[..n][i] in fates;
      }
    }
  }

  function Tally(r: Report, item: Item): nat {
    (if item in r.pruned then 1 else 0) + (if item in r.shielded then 1 else 0)
    + (if item in r.released then 1 else 0) + (if item in r.errors then 1 else 0)
  }

  lemma PickedOnce(l: seq<Item>, fs: seq<Fate>, fates: set<Fate>, i: nat)
    requires |fs| == |l| && Distinct(l) && i < |l|
    ensures l[i] in Picked(l, fs, fates) <==> fs[i] in fates
  {
    PickedMembers(l, fs, fates, l[i]);
    if Listed(l, fs, l[i], fates) {
      var j :| 0 <= j < |l| && l[j] == l[i] && fs[j] in fates;
    }
  }

  /** When no orphan is listed twice, each one is in exactly one list of the report unless it is gone or in
      its grace period, and then it is in none. */
  lemma OutcomeFollowsFate(c: Call, s: Scene, l: seq<Item>, i: nat)
    requires s.report == EMPTY && Distinct(l) && i < |l| && c.opts.policy != Unknown
    ensures var f := Fates(c, s, l)[i];
            Tally(HandleAll(c, s, l).report, l[i]) == if f == Gone || f == InGrace then 0 else 1
  {
    var fs := Fates(c, s, l);
    ReportExact(c, s, l);
    PickedOnce(l, fs, PRUNED, i);
    PickedOnce(l, fs, {Shielded}, i);
    PickedOnce(l, fs, {Released}, i);
    PickedOnce(l, fs, FAILED, i);
    NoneLeft(c, s, l);
  }

  // ---- the inventory afterwards ----

  /** An orphan with this ID has one of the given fates. */
  ghost predicate Meets(l: seq<Item>, fs: seq<Fate>, id: string, fates: set<Fate>)
    requires |fs| == |l|
  {
    exists i :: 0 <= i < |l| && l[i].id == id && fs[i] in fates
  }

  lemma MeetsMore(l: seq<Item>, fs: seq<Fate>, id: string, fates: set<Fate>)
    requires |fs| == |l| > 0
    ensures var n := |l| - 1;
            Meets(l, fs, id, fates) <==> Meets(l[..n], fs[..n], id, fates) || (l[n].id == id && fs[n] in fates)
  {
    var n := |l| - 1;
    if Meets(l[..n], fs[..n], id, fates) {
      var i :| 0 <= i < n && l[..n][i].id == id && fs[..n][i] in fates;
      assert l[i].id == id && fs[i] in fates;
    }
    if Meets(l, fs, id, fates) {
      var i :| 0 <= i < |l| && l[i].id == id && fs[i] in fates;
      assert i < n ==> l[..n][i].id == id && fs[..n][i] in fates;
    }
  }

  /** What the inventory holds under `id` after the orphans met their fates. */
  ghost function Afterwards(items: Items, l: seq<Item>, fs: seq<Fate>, id: string): Option<Item>
    requires |fs| == |l|
  {
    if id !in items || Meets(l, fs, id, {Gone, Released}) then None
    else if Meets(l, fs, id, {Deleted}) then Some(items[id].(status := Pruned))
    else Some(items[id])
  }

  function EntryOf(items: Items, id: string): Option<Item> {
    if id in items then Some(items[id]) else None
  }

  /** What one orphan's fate does to the entry under `id`. */
  lemma HandleEntry(c: Call, s: Scene, x: Item, id: string)
    ensures var f, before := FateOf(c, s.objects, x.ref), EntryOf(s.items, id);
            EntryOf(Handle(c, s, x).items, id) ==
              if x.id != id || before == None then before
              else if f in {Gone, Released} then None
              else if f in {Deleted} then Some(before.value.(status := Pruned))
              else before
  {
  }

  /** The inventory after a call, under every key: what gone and released orphans name is removed, what
      deleted ones name is marked pruned, and everything else is as before. */
  lemma {:induction false} InventoryAfter(c: Call, s: Scene, l: seq<Item>, id: string)
    ensures EntryOf(HandleAll(c, s, l).items, id) == Afterwards(s.items, l, Fates(c, s, l), id)
    decreases |l|
  {
    if l != [] {
      var init, fs := l[..|l| - 1], Fates(c, s, l);
      InventoryAfter(c, s, init, id);
      HandleEntry(c, HandleAll(c, s, init), l[|l| - 1], id);
      assert fs[..|l| - 1] == Fates(c, s, init);
      MeetsMore(l, fs, id, {Gone, Released});
      MeetsMore(l, fs, id, {Deleted});
    }
  }

  // ---- what must happen, over annotations, times and options ----

  /** The protection annotation says "true", "yes" or "1". */
  ghost predicate Protected(o: Obj) {
    var a := o.annotations;
    var key := "pequod.io/prune-protection";
    key in a && (a[key] == "true" || a[key] == "yes" || a[key] == "1")
  }

  /** Without a creation time, or older than the grace period: that of the annotation if it parses, else the
      default. */
  ghost predicate PastGrace(c: Call, o: Obj) {
    var a := o.annotations;
    var key := "pequod.io/prune-grace-period";
    o.created.Some? ==>
      c.now - o.created.value >
        if key in a && c.parse(a[key]) != None then c.parse(a[key]).value else c.opts.grace
  }

  lemma ConditionsMeaning(c: Call, o: Obj)
    ensures IsProtected(o) <==> Protected(o)
    ensures GraceExpired(c, o) <==> PastGrace(c, o)
  {
  }

  /** An orphan that can be read and has an object that may go. */
  ghost predicate Ripe(c: Call, objects: Objects, ref: Ref) {
    ref !in c.getFails && ref in objects && !Protected(objects[ref]) && PastGrace(c, objects[ref])
  }

  /** No other orphan on the list has this ID. */
  ghost predicate OnlyOne(l: seq<Item>, i: nat)
    requires i < |l|
  {
    forall j :: 0 <= j < |l| && j != i ==> l[j].id != l[i].id
  }

  /** No earlier orphan on the list names the same object. */
  ghost predicate FirstOf(l: seq<Item>, i: nat)
    requires i < |l|
  {
    forall j :: 0 <= j < i ==> l[j].ref != l[i].ref
  }

  /** Until an orphan's turn comes its object is as it was. */
  lemma UntouchedBefore(c: Call, s: Scene, l: seq<Item>, i: nat)
    requires i < |l| && (FirstOf(l, i) || c.opts.dryRun || c.opts.policy != DeleteOrphans)
    ensures var before, ref := HandleAll(c, s, l[..i]).objects, l[i].ref;
            (ref in before <==> ref in s.objects) && (ref in before ==> before[ref] == s.objects[ref])
  {
    DeletesAreAllowed(c, s, l[..i], l[i].ref);
  }

  /** The fate of each orphan, by what is true of it. */
  lemma FateMeaning(c: Call, objects: Objects, ref: Ref)
    ensures var f := FateOf(c, objects, ref);
            && (f == ReadError <==> ref in c.getFails)
            && (f == Gone <==> ref !in c.getFails && ref !in objects)
            && (f == Shielded <==> ref !in c.getFails && ref in objects && Protected(objects[ref]))
            && (f == InGrace <==> && ref !in c.getFails && ref in objects
                                  && !Protected(objects[ref]) && !PastGrace(c, objects[ref]))
            && (f == Released <==> Ripe(c, objects, ref) && c.opts.policy == KeepOrphans)
            && (f == WouldDelete <==> Ripe(c, objects, ref) && c.opts.policy == DeleteOrphans && c.opts.dryRun)
            && (f == DeleteError <==> Ripe(c, objects, ref) && c.opts.policy == DeleteOrphans && !c.opts.dryRun
                                      && ref in c.deleteFails)
            && (f == Deleted <==> Ripe(c, objects, ref) && c.opts.policy == DeleteOrphans && !c.opts.dryRun
                                  && ref !in c.deleteFails)
  {
    if ref in objects {
      ConditionsMeaning(c, objects[ref]);
    }
  }

  lemma TurnMeaning(c: Call, s: Scene, l: seq<Item>, i: nat)
    requires i < |l| && (FirstOf(l, i) || c.opts.dryRun || c.opts.policy != DeleteOrphans)
    ensures Fates(c, s, l)[i] == FateOf(c, s.objects, l[i].ref)
  {
    UntouchedBefore(c, s, l, i);
    FateWhenItsTurnComes(c, s, l, i);
  }

  /** The handling of one orphan shows in the report. */
  lemma ShownInReport(c: Call, s: Scene, l: seq<Item>, i: nat)
    requires s.report == EMPTY && i < |l|
    ensures var f, r := Fates(c, s, l)[i], HandleAll(c, s, l).report;
            && (f == Released ==> l[i] in r.released)
            && (f == WouldDelete || f == Deleted ==> l[i] in r.pruned)
            && (f == ReadError || f == DeleteError ==> l[i] in r.errors)
            && (f == Shielded ==> l[i] in r.shielded)
  {
    var fs := Fates(c, s, l);
    ReportExact(c, s, l);
    PickedMembers(l, fs, {Released}, l[i]);
    PickedMembers(l, fs, PRUNED, l[i]);
    PickedMembers(l, fs, FAILED, l[i]);
    PickedMembers(l, fs, {Shielded}, l[i]);
  }

  /** Under the orphan policy, dry run or not, a ripe orphan leaves the inventory and is reported as
      released, and the cluster stays as it is. */
  lemma OrphanPolicyReleases(c: Call, items: Items, objects: Objects, l: seq<Item>, i: nat)
    requires i < |l| && c.opts.policy == KeepOrphans && Ripe(c, objects, l[i].ref)
    ensures var s := HandleAll(c, Scene(items, objects, EMPTY), l);
            l[i].id !in s.items && l[i] in s.report.released && s.objects == objects
  {
    var s := Scene(items, objects, EMPTY);
    FateMeaning(c, objects, l[i].ref);
    TurnMeaning(c, s, l, i);
    ShownInReport(c, s, l, i);
    InventoryAfter(c, s, l, l[i].id);
    assert Meets(l, Fates(c, s, l), l[i].id, {Gone, Released});
    DryRunKeepsCluster(c, s, l);
  }

  lemma {:induction false} GoneStaysGone(c: Call, s: Scene, l: seq<Item>, i: nat)
    requires i < |l| && Fates(c, s, l)[i] == Deleted
    ensures l[i].ref !in HandleAll(c, s, l).objects
    decreases |l|
  {
    if i < |l| - 1 {
      GoneStaysGone(c, s, l[..|l| - 1], i);
    }
  }

  /** Under the delete policy, in a real call, a ripe orphan that is the first to name its object is deleted:
      the object is gone, the entry under its ID is marked pruned, and it is reported as pruned. */
  lemma DeletePolicyDeletes(c: Call, items: Items, objects: Objects, l: seq<Item>, i: nat)
    requires i < |l| && c.opts.policy == DeleteOrphans && !c.opts.dryRun && FirstOf(l, i) && OnlyOne(l, i)
    requires Ripe(c, objects, l[i].ref) && l[i].ref !in c.deleteFails && l[i].id in items
    ensures var s := HandleAll(c, Scene(items, objects, EMPTY), l);
            && l[i].ref !in s.objects && l[i] in s.report.pruned
            && l[i].id in s.items && s.items[l[i].id] == items[l[i].id].(status := Pruned)
  {
    var s := Scene(items, objects, EMPTY);
    var fs := Fates(c, s, l);
    FateMeaning(c, objects, l[i].ref);
    TurnMeaning(c, s, l, i);
    ShownInReport(c, s, l, i);
    InventoryAfter(c, s, l, l[i].id);
    assert fs[i] in {Deleted} && Meets(l, fs, l[i].id, {Deleted});
    assert !Meets(l, fs, l[i].id, {Gone, Released});
    GoneStaysGone(c, s, l, i);
  }

  lemma OnlyFate(l: seq<Item>, fs: seq<Fate>, i: nat, fates: set<Fate>)
    requires |fs| == |l| && i < |l| && OnlyOne(l, i)
    ensures Meets(l, fs, l[i].id, fates) <==> fs[i] in fates
  {
  }

  /** A ripe orphan whose deletion fails is reported as an error; its object and its entry stay as they
      were. */
  lemma FailedDeleteKeeps(c: Call, items: Items, objects: Objects, l: seq<Item>, i: nat)
    requires i < |l| && c.opts.policy == DeleteOrphans && !c.opts.dryRun && OnlyOne(l, i)
    requires Ripe(c, objects, l[i].ref) && l[i].ref in c.deleteFails && l[i].id in items
    ensures var s := HandleAll(c, Scene(items, objects, EMPTY), l);
            && l[i].ref in s.objects && s.objects[l[i].ref] == objects[l[i].ref] && l[i] in s.report.errors
            && l[i].id in s.items && s.items[l[i].id] == items[l[i].id]
  {
    var s := Scene(items, objects, EMPTY);
    DeletesAreAllowed(c, s, l[..i], l[i].ref);
    DeletesAreAllowed(c, s, l, l[i].ref);
    FateMeaning(c, objects, l[i].ref);
    FateMeaning(c, HandleAll(c, s, l[..i]).objects, l[i].ref);
    FateWhenItsTurnComes(c, s, l, i);
    ShownInReport(c, s, l, i);
    InventoryAfter(c, s, l, l[i].id);
    OnlyFate(l, Fates(c, s, l), i, {Gone, Released});
    OnlyFate(l, Fates(c, s, l), i, {Deleted});
  }

  /** In a dry run under the delete policy a ripe orphan is only reported. */
  lemma DryRunReports(c: Call, items: Items, objects: Objects, l: seq<Item>, i: nat)
    requires i < |l| && c.opts.policy == DeleteOrphans && c.opts.dryRun && Ripe(c, objects, l[i].ref)
    ensures var s := HandleAll(c, Scene(items, objects, EMPTY), l);
            l[i] in s.report.pruned && s.objects == objects
  {
    var s := Scene(items, objects, EMPTY);
    FateMeaning(c, objects, l[i].ref);
    TurnMeaning(c, s, l, i);
    ShownInReport(c, s, l, i);
    DryRunKeepsCluster(c, s, l);
  }

  /** An orphan that must not go: unreadable, protected or in its grace period. It is reported accordingly, and
      its object and its entry stay as they were. */
  lemma SparedStays(c: Call, items: Items, objects: Objects, l: seq<Item>, i: nat)
    requires i < |l| && OnlyOne(l, i) && l[i].id in items
    requires l[i].ref in c.getFails ||
             (l[i].ref in objects && (Protected(objects[l[i].ref]) || !PastGrace(c, objects[l[i].ref])))
    ensures var s := HandleAll(c, Scene(items, objects, EMPTY), l);
            && (l[i].ref in objects ==> l[i].ref in s.objects && s.objects[l[i].ref] == objects[l[i].ref])
            && l[i].id in s.items && s.items[l[i].id] == items[l[i].id]
            && (l[i].ref in c.getFails ==> l[i] in s.report.errors)
            && (l[i].ref !in c.getFails && Protected(objects[l[i].ref]) ==> l[i] in s.report.shielded)
  {
    var s := Scene(items, objects, EMPTY);
    if l[i].ref in objects {
      ConditionsMeaning(c, objects[l[i].ref]);
    }
    DeletesAreAllowed(c, s, l[..i], l[i].ref);
    DeletesAreAllowed(c, s, l, l[i].ref);
    FateWhenItsTurnComes(c, s, l, i);
    ShownInReport(c, s, l, i);
    InventoryAfter(c, s, l, l[i].id);
    OnlyFate(l, Fates(c, s, l), i, {Gone, Released});
    OnlyFate(l, Fates(c, s, l), i, {Deleted});
  }

  // ---- what may be deleted ----

  /** Objects only disappear; each one that does belonged to an orphan, was unprotected and past its
      grace period, and the call was a real one under the delete policy. */
  lemma {:induction false} DeletesAreAllowed(c: Call, s: Scene, l: seq<Item>, ref: Ref)
    ensures var t := HandleAll(c, s, l).objects;
            && (ref in t ==> ref in s.objects && t[ref] == s.objects[ref])
            && (ref in s.objects && ref !in t ==>
                  && c.opts.policy == DeleteOrphans && !c.opts.dryRun
                  && ref !in c.getFails && ref !in c.deleteFails
                  && !IsProtected(s.objects[ref]) && GraceExpired(c, s.objects[ref])
                  && exists i :: 0 <= i < |l| && l[i].ref == ref)
    decreases |l|
  {
    if l != [] {
      var init := l[..|l| - 1];
      DeletesAreAllowed(c, s, init, ref);
      var t := HandleAll(c, s, init).objects;
      if ref in s.objects && ref !in t {
        var i :| 0 <= i < |init| && init[i].ref == ref;
        assert l[i].ref == ref;
      } else if ref in t && ref == l[|l| - 1].ref {
        assert l[|l| - 1].ref == ref;
      }
    }
  }

  /** So `Prune` deletes nothing but objects of unpruned items whose key is outside the current node set. */
  lemma PruneDeletesOnlyOrphans(c: Call, items: Items, objects: Objects, current: set<string>, l: seq<Item>,
                                keys: seq<string>, ref: Ref)
    requires OrphanItems(items, current, l, keys)
    requires ref in objects && ref !in HandleAll(c, Scene(items, objects, EMPTY), l).objects
    ensures exists id :: id in items && id !in current && items[id].status != Pruned && items[id].ref == ref
    ensures !IsProtected(objects[ref]) && GraceExpired(c, objects[ref]) && !c.opts.dryRun
  {
    DeletesAreAllowed(c, Scene(items, objects, EMPTY), l, ref);
    var i :| 0 <= i < |l| && l[i].ref == ref;
    assert IsOrphan(items, current, keys[i]) && items[keys[i]].ref == ref;
  }

  /** A call that deletes nothing: a dry run, or any policy other than Delete. */
  lemma {:induction false} DryRunKeepsCluster(c: Call, s: Scene, l: seq<Item>)
    requires c.opts.dryRun || c.opts.policy != DeleteOrphans
    ensures HandleAll(c, s, l).objects == s.objects
  {
    forall ref ensures ref in HandleAll(c, s, l).objects <==> ref in s.objects {
      DeletesAreAllowed(c, s, l, ref);
    }
    forall ref | ref in s.objects ensures HandleAll(c, s, l).objects[ref] == s.objects[ref] {
      DeletesAreAllowed(c, s, l, ref);
    }
  }

  /** A dry run takes the item of an orphan out of the inventory: its object is gone, or it could be
      released under the orphan policy. */
  predicate DroppedByDryRun(c: Call, objects: Objects, ref: Ref) {
    && ref !in c.getFails
    && (ref !in objects
        || (!IsProtected(objects[ref]) && GraceExpired(c, objects[ref]) && c.opts.policy == KeepOrphans))
  }

  function DryRunDrops(c: Call, objects: Objects, l: seq<Item>): set<string> {
    set i | 0 <= i < |l| && DroppedByDryRun(c, objects, l[i].ref) :: l[i].id
  }

  lemma DryRunStep(c: Call, s: Scene, x: Item)
    requires c.opts.dryRun
    ensures Handle(c, s, x).items == s.items - (if DroppedByDryRun(c, s.objects, x.ref) then {x.id} else {})
  {
    assert s.items - {} == s.items;
  }

  lemma DryRunDropsMore(c: Call, objects: Objects, l: seq<Item>)
    requires l != []
    ensures DryRunDrops(c, objects, l) == DryRunDrops(c, objects, l[..|l| - 1])
              + (if DroppedByDryRun(c, objects, l[|l| - 1].ref) then {l[|l| - 1].id} else {})
  {
    assert l == l[..|l| - 1] + [l[|l| - 1]];
  }

  lemma {:induction false} DryRunRemoves(c: Call, s: Scene, l: seq<Item>)
    requires c.opts.dryRun
    ensures HandleAll(c, s, l).items == s.items - DryRunDrops(c, s.objects, l)
    decreases |l|
  {
    if l != [] {
      var init, last := l[..|l| - 1], l[|l| - 1];
      DryRunRemoves(c, s, init);
      DryRunKeepsCluster(c, s, init);
      DryRunStep(c, HandleAll(c, s, init), last);
      DryRunDropsMore(c, s.objects, l);
      var drops := DryRunDrops(c, s.objects, init);
      var more := if DroppedByDryRun(c, s.objects, last.ref) then {last.id} else {};
      assert s.items - drops - more == s.items - (drops + more);
    }
  }

  /** What a dry run does to the inventory: it leaves it alone if and only if no orphan's object is
      gone and, under the orphan policy, none could be released; otherwise exactly those items go. */
  lemma DryRunKeepsInventory(c: Call, items: Items, objects: Objects, l: seq<Item>)
    requires c.opts.dryRun && forall i :: 0 <= i < |l| ==> l[i].id in items
    ensures var after := HandleAll(c, Scene(items, objects, EMPTY), l).items;
            && after == items - DryRunDrops(c, objects, l)
            && (after == items <==> forall i :: 0 <= i < |l| ==> !DroppedByDryRun(c, objects, l[i].ref))
  {
    DryRunRemoves(c, Scene(items, objects, EMPTY), l);
    var drops := DryRunDrops(c, objects, l);
    if i :| 0 <= i < |l| && DroppedByDryRun(c, objects, l[i].ref) {
      assert l[i].id in drops && l[i].id !in items - drops;
    } else {
      assert drops == {} && items - drops == items;
    }
  }

  /** Both ways happen to every item: under the delete policy when its object is gone, and under the
      orphan policy when its object could be released. */
  lemma DryRunDropsItems(items: Items, item: Item) returns (gone: Call, released: Call, objects: Objects)
    requires item.id in items
    ensures gone.opts.dryRun && gone.opts.policy == DeleteOrphans
    ensures item.id !in HandleAll(gone, Scene(items, map[], EMPTY), [item]).items
    ensures released.opts.dryRun && released.opts.policy == KeepOrphans && item.ref in objects
    ensures item.id !in HandleAll(released, Scene(items, objects, EMPTY), [item]).items
  {
    gone := Call(Options(DeleteOrphans, 0, true), 0, {}, {}, _ => None);
    released := gone.(opts := Options(KeepOrphans, 0, true));
    objects := map[item.ref := Obj(map[], None)];
    DryRunKeepsInventory(gone, items, map[], [item]);
    DryRunKeepsInventory(released, items, objects, [item]);
    assert DroppedByDryRun(gone, map[], [item][0].ref) && DroppedByDryRun(released, objects, [item][0].ref);
  }

  // ---- deleted at most once ----

  /** Things that happen to an inventory. A prune call brings its own view of the cluster. */
  datatype Event =
    | PruneCall(call: Call, current: set<string>, objects: Objects, orphans: seq<Item>, keys: seq<string>)
    | Recorded(item: Item)
    | MarkedOrphaned(ids: set<string>)
    | Dropped(id: string)

  /** A prune call works on the orphans that `FindOrphaned` reports at that moment. */
  ghost predicate Legal(items: Items, e: Event) {
    e.PruneCall? ==> OrphanItems(items, e.current, e.orphans, e.keys)
  }

  function Next(items: Items, e: Event): Items {
    match e
    case PruneCall(call, _, objects, orphans, _) => HandleAll(call, Scene(items, objects, EMPTY), orphans).items
    case Recorded(item) => items[item.id := item]
    case MarkedOrphaned(ids) => AfterMark(items, ids)
    case Dropped(id) => AfterRemove(items, id)
  }

  function FatesIn(items: Items, e: Event): (fs: seq<Fate>)
    requires e.PruneCall?
    ensures |fs| == |e.orphans|
  {
    Fates(e.call, Scene(items, e.objects, EMPTY), e.orphans)
  }

  /** The item stored under `key` is deleted from the cluster by this event. */
  ghost predicate Deletes(items: Items, e: Event, key: string) {
    && e.PruneCall? && |e.keys| == |e.orphans|
    && exists i :: 0 <= i < |e.orphans| && e.keys[i] == key && FatesIn(items, e)[i] == Deleted
  }

  /** The event brings `key` back: it is recorded again or marked as an orphan. */
  predicate Revives(e: Event, key: string) {
    (e.Recorded? && e.item.id == key) || (e.MarkedOrphaned? && key in e.ids)
  }

  /** What is stored under `key` cannot be deleted now. */
  predicate Barred(items: Items, key: string) {
    key in items ==> items[key].status == Pruned
  }

  const SETTLING := {Gone, Released, Deleted}

  /** A prune call bars a key exactly when some orphan that names it as its ID is gone, released or deleted. */
  lemma BarredAfterwards(items: Items, e: Event, key: string)
    requires e.PruneCall?
    ensures Barred(Next(items, e), key) <==>
              Barred(items, key) || Meets(e.orphans, FatesIn(items, e), key, SETTLING)
  {
    var l, fs := e.orphans, FatesIn(items, e);
    InventoryAfter(e.call, Scene(items, e.objects, EMPTY), l, key);
    if i :| 0 <= i < |l| && l[i].id == key && fs[i] in SETTLING {
      assert fs[i] in {Gone, Released} || fs[i] in {Deleted};
    }
    if Meets(l, fs, key, {Gone, Released}) {
      var i :| 0 <= i < |l| && l[i].id == key && fs[i] in {Gone, Released};
      assert fs[i] in SETTLING;
    }
    if Meets(l, fs, key, {Deleted}) {
      var i :| 0 <= i < |l| && l[i].id == key && fs[i] in {Deleted};
      assert fs[i] in SETTLING;
    }
  }

  lemma NextKeepsBarred(items: Items, e: Event, key: string)
    requires Barred(items, key) && !Revives(e, key)
    ensures Barred(Next(items, e), key)
  {
    if e.PruneCall? {
      BarredAfterwards(items, e, key);
    }
  }

  function After(items: Items, es: seq<Event>): Items {
    if es == [] then items else Next(After(items, es[..|es| - 1]), es[|es| - 1])
  }

  /** No event of the sequence brings `key` back. */
  ghost predicate NoneRevives(es: seq<Event>, key: string) {
    forall i :: 0 <= i < |es| ==> !Revives(es[i], key)
  }

  lemma {:induction false} StaysBarred(items: Items, es: seq<Event>, key: string)
    requires Barred(items, key) && NoneRevives(es, key)
    ensures Barred(After(items, es), key)
    decreases |es|
  {
    if es != [] {
      StaysBarred(items, es[..|es| - 1], key);
      NextKeepsBarred(After(items, es[..|es| - 1]), es[|es| - 1], key);
    }
  }

  lemma DeletedIsNotBarred(items: Items, e: Event, key: string)
    requires Legal(items, e) && Deletes(items, e, key)
    ensures key in items && !Barred(items, key)
  {
  }

  /** A key that is not barred can be deleted right away, once its object is there. */
  lemma UnbarredIsDeletable(items: Items, key: string) returns (e: Event)
    requires !Barred(items, key)
    ensures Legal(items, e) && Deletes(items, e, key)
  {
    var item := Marked(items[key]);
    var call := Call(Options(DeleteOrphans, 0, false), 0, {}, {}, _ => None);
    e := PruneCall(call, items.Keys - {key}, map[item.ref := Obj(map[], None)], [item], [key]);
    assert [item][..0] == [];
    assert FatesIn(items, e)[0] == Deleted && e.keys[0] == key;
  }

  /** Some later prune call deletes `key` again, although nothing brought it back in between. */
  ghost predicate DeletableAgain(items: Items, key: string) {
    exists es, e :: NoneRevives(es, key) && Legal(After(items, es), e) && Deletes(After(items, es), e, key)
  }

  /** For any inventory: after a prune call has deleted the item under `key`, it can be deleted again without
      being recorded or marked in between if and only if no orphan of that call that names `key` as its
      ID was gone, released or deleted. */
  lemma DeletedAgainIff(items: Items, e: Event, key: string)
    requires Legal(items, e) && Deletes(items, e, key)
    ensures DeletableAgain(Next(items, e), key) <==> !Meets(e.orphans, FatesIn(items, e), key, SETTLING)
  {
    DeletedIsNotBarred(items, e, key);
    BarredAfterwards(items, e, key);
    var items' := Next(items, e);
    if Meets(e.orphans, FatesIn(items, e), key, SETTLING) {
      forall es, x | NoneRevives(es, key) && Legal(After(items', es), x) ensures !Deletes(After(items', es), x, key) {
        StaysBarred(items', es, key);
        if Deletes(After(items', es), x, key) {
          DeletedIsNotBarred(After(items', es), x, key);
        }
      }
    } else {
      var x := UnbarredIsDeletable(items', key);
      assert After(items', []) == items' && NoneRevives([], key);
    }
  }

  /** An item stored under its own ID, as recording stores it, is deleted at most once unless it is
      recorded again or marked. */
  lemma DeletedAtMostOnce(items: Items, e: Event, key: string)
    requires Legal(items, e) && Deletes(items, e, key) && items[key].id == key
    ensures !DeletableAgain(Next(items, e), key)
  {
    DeletedAgainIff(items, e, key);
    var i :| 0 <= i < |e.orphans| && e.keys[i] == key && FatesIn(items, e)[i] == Deleted;
    assert e.orphans[i].id == key && FatesIn(items, e)[i] in SETTLING;
  }

  /** An item stored under another key can be deleted twice. */
  lemma MisfiledIsDeletedTwice(ref: Ref) returns (items: Items, e: Event)
    ensures Legal(items, e) && Deletes(items, e, "k") && DeletableAgain(Next(items, e), "k")
  {
    items := map["k" := Item("x", ref, "", Applied)];
    e := UnbarredIsDeletable(items, "k");
    DeletedAgainIff(items, e, "k");
    assert "x"[0] != "k"[0];
    assert forall i :: 0 <= i < |e.orphans| ==> e.orphans[i].id == "x" by {
      assert OrphanItems(items, e.current, e.orphans, e.keys);
    }
  }
}
