/** Grouping and ordering changed files: the collector inside
    `open_authoritative_scope_impl_bounded` in `collect-diff-context-cli/src/app.rs` and
    `AuthoritativeScope::from_parts` in `collect-diff-context-cli/src/review_scope.rs`.

    The collector is written over the classification of paths, so that what it guarantees does not
    depend on how a path is classified. */
module ReviewScope {
  import opened ByteStrings
  import opened Sorting
  import opened Classification

  /** One name-status entry with what Git reported for it. */
  datatype ChangedFile = ChangedFile(path: Bytes, status: Bytes, additions: nat, deletions: nat, diffBytes: nat,
                                     fingerprint: Bytes)

  datatype Budget = WithinTarget | OverTarget | SplitRequired

  datatype Action = SplitAction | ReviewAction

  datatype Unit = Unit(path: Bytes, status: Bytes, additions: nat, deletions: nat, diffBytes: nat, tag: Tag,
                       groupId: Bytes, fingerprint: Bytes)

  datatype Group = Group(groupId: Bytes, risk: Risk, reason: Reason, diffBytes: nat, files: seq<Bytes>, budget: Budget)

  datatype WorkItem = WorkItem(priority: nat, groupId: Bytes, action: Action)

  type Classes = Bytes -> PathClass

  // ---------------------------------------------------------------- what a group must be

  function UnitOf(f: ChangedFile, classes: Classes): Unit {
    var k := classes(f.path);
    Unit(k.display, f.status, f.additions, f.deletions, f.diffBytes, k.tag, k.groupId, f.fingerprint)
  }

  function UnitsOf(files: seq<ChangedFile>, classes: Classes): (units: seq<Unit>)
    ensures |units| == |files|
    ensures forall i :: 0 <= i < |units| ==> units[i] == UnitOf(files[i], classes)
  {
    seq(|files|, i requires 0 <= i < |files| => UnitOf(files[i], classes))
  }

  /** The bytes of all units of a group. */
  function BytesIn(units: seq<Unit>, id: Bytes): nat {
    if units == [] then 0
    else
      var n := |units| - 1;
      BytesIn(units[..n], id) + if units[n].groupId == id then units[n].diffBytes else 0
  }

  /** The paths of all units of a group, in order. */
  function FilesIn(units: seq<Unit>, id: Bytes): seq<Bytes> {
    if units == [] then []
    else
      var n := |units| - 1;
      FilesIn(units[..n], id) + if units[n].groupId == id then [units[n].path] else []
  }

  /** The class of a group's first file; a group without files has none. */
  function FirstClass(files: seq<ChangedFile>, classes: Classes, id: Bytes): Option<PathClass> {
    if files == [] then None
    else if classes(files[0].path).groupId == id then Some(classes(files[0].path))
    else FirstClass(files[1..], classes, id)
  }

  function BudgetOf(diffBytes: nat, target: nat, hard: nat): Budget {
    if diffBytes > hard then SplitRequired else if diffBytes > target then OverTarget else WithinTarget
  }

  function GroupOf(files: seq<ChangedFile>, classes: Classes, target: nat, hard: nat, id: Bytes): Group
    requires FirstClass(files, classes, id).Some?
  {
    var units, first := UnitsOf(files, classes), FirstClass(files, classes, id).value;
    Group(id, first.risk, first.reason, BytesIn(units, id), FilesIn(units, id),
          BudgetOf(BytesIn(units, id), target, hard))
  }

  predicate GroupBefore(a: Group, b: Group) {
    Less(a.groupId, b.groupId)
  }

  ghost predicate AscendingGroups(groups: seq<Group>) {
    forall i, j :: 0 <= i < j < |groups| ==> Less(groups[i].groupId, groups[j].groupId)
  }

  ghost predicate HasGroup(groups: seq<Group>, id: Bytes) {
    exists g :: g in groups && g.groupId == id
  }

  ghost predicate IsGroupOf(files: seq<ChangedFile>, classes: Classes, target: nat, hard: nat, g: Group) {
    FirstClass(files, classes, g.groupId).Some? && g == GroupOf(files, classes, target, hard, g.groupId)
  }

  /** The groups of a list of files: one for each group id in use, in order of their ids. */
  ghost predicate GroupsOf(files: seq<ChangedFile>, classes: Classes, target: nat, hard: nat, groups: seq<Group>) {
    && AscendingGroups(groups)
    && (forall g :: g in groups ==> IsGroupOf(files, classes, target, hard, g))
    && (forall id :: FirstClass(files, classes, id).Some? ==> HasGroup(groups, id))
  }

  // ---------------------------------------------------------------- the collector

  /** The four hash maps. */
  datatype Maps = Maps(risks: map<Bytes, Risk>, reasons: map<Bytes, Reason>, sizes: map<Bytes, nat>,
                       members: map<Bytes, seq<Bytes>>)

  ghost predicate MapsHold(files: seq<ChangedFile>, classes: Classes, maps: Maps, id: Bytes) {
    var first, units := FirstClass(files, classes, id), UnitsOf(files, classes);
    && (id in maps.risks <==> first.Some?)
    && (id in maps.reasons <==> first.Some?)
    && (id in maps.sizes <==> first.Some?)
    && (id in maps.members <==> first.Some?)
    && (first.Some? ==> maps.risks[id] == first.value.risk && maps.reasons[id] == first.value.reason)
    && (if first.Some? then maps.sizes[id] == BytesIn(units, id) else BytesIn(units, id) == 0)
    && (if first.Some? then maps.members[id] == FilesIn(units, id) else FilesIn(units, id) == [])
  }

  function AddFile(maps: Maps, f: ChangedFile, k: PathClass): Maps {
    var id := k.groupId;
    Maps(if id in maps.risks then maps.risks else maps.risks[id := k.risk],
         if id in maps.reasons then maps.reasons else maps.reasons[id := k.reason],
         maps.sizes[id := (if id in maps.sizes then maps.sizes[id] else 0) + f.diffBytes],
         maps.members[id := (if id in maps.members then maps.members[id] else []) + [k.display]])
  }

  lemma TotalsNext(units: seq<Unit>, u: Unit, id: Bytes)
    ensures BytesIn(units + [u], id) == BytesIn(units, id) + if u.groupId == id then u.diffBytes else 0
    ensures FilesIn(units + [u], id) == FilesIn(units, id) + if u.groupId == id then [u.path] else []
  {
    assert (units + [u])[..|units|] == units;
  }

  lemma {:induction false} FirstClassNext(files: seq<ChangedFile>, f: ChangedFile, classes: Classes, id: Bytes)
    ensures FirstClass(files + [f], classes, id) ==
            if FirstClass(files, classes, id).Some? then FirstClass(files, classes, id)
            else if classes(f.path).groupId == id then Some(classes(f.path)) else None
  {
    if files == [] {
      assert [f][1..] == [];
    } else {
      FirstClassNext(files[1..], f, classes, id);
      assert (files + [f])[1..] == files[1..] + [f];
    }
  }

  lemma MapsHoldNext(files: seq<ChangedFile>, f: ChangedFile, classes: Classes, maps: Maps)
    requires forall id :: MapsHold(files, classes, maps, id)
    ensures forall id :: MapsHold(files + [f], classes, AddFile(maps, f, classes(f.path)), id)
  {
    forall id
      ensures MapsHold(files + [f], classes, AddFile(maps, f, classes(f.path)), id)
    {
      assert MapsHold(files, classes, maps, id);
      FirstClassNext(files, f, classes, id);
      TotalsNext(UnitsOf(files, classes), UnitOf(f, classes), id);
      assert UnitsOf(files + [f], classes) == UnitsOf(files, classes) + [UnitOf(f, classes)];
    }
  }

  method Collect(files: seq<ChangedFile>, classes: Classes, target: nat, hard: nat)
    returns (units: seq<Unit>, groups: seq<Group>)
    ensures units == UnitsOf(files, classes)
    ensures GroupsOf(files, classes, target, hard, groups)
  {
    units := [];
    var groupRisks: map<Bytes, Risk> := map[];
    var groupReasons: map<Bytes, Reason> := map[];
    var groupSizes: map<Bytes, nat> := map[];
    var groupFiles: map<Bytes, seq<Bytes>> := map[];
    for n := 0 to |files|
      invariant units == UnitsOf(files[..n], classes)
      invariant forall id :: MapsHold(files[..n], classes, Maps(groupRisks, groupReasons, groupSizes, groupFiles), id)
    {
      var f := files[n];
      var k := classes(f.path);
      var id := k.groupId;
      ghost var before := Maps(groupRisks, groupReasons, groupSizes, groupFiles);
      ghost var done, next := files[..n + 1], AddFile(before, f, k);
      if id !in groupRisks {
        groupRisks := groupRisks[id := k.risk];
      }
      if id !in groupReasons {
        groupReasons := groupReasons[id := k.reason];
      }
      groupSizes := groupSizes[id := (if id in groupSizes then groupSizes[id] else 0) + f.diffBytes];
      groupFiles := groupFiles[id := (if id in groupFiles then groupFiles[id] else []) + [k.display]];
      units := units + [Unit(k.display, f.status, f.additions, f.deletions, f.diffBytes, k.tag, id, f.fingerprint)];
      assert Maps(groupRisks, groupReasons, groupSizes, groupFiles) == next;
      assert done == files[..n] + [f];
      MapsHoldNext(files[..n], f, classes, before);
    }
    assert files[..|files|] == files;
    groups := BuildGroups(files, classes, target, hard, Maps(groupRisks, groupReasons, groupSizes, groupFiles));
  }

  /** Turns the maps into groups. The loop takes the keys in any order, as the hash map does. */
  method BuildGroups(ghost files: seq<ChangedFile>, ghost classes: Classes, target: nat, hard: nat, maps: Maps)
    returns (groups: seq<Group>)
    requires forall id :: MapsHold(files, classes, maps, id)
    ensures GroupsOf(files, classes, target, hard, groups)
  {
    groups := [];
    var remaining := maps.members.Keys;
    while remaining != {}
      invariant remaining <= maps.members.Keys
      invariant forall i, j :: 0 <= i < j < |groups| ==> groups[i].groupId != groups[j].groupId
      invariant forall g :: g in groups ==> IsGroupOf(files, classes, target, hard, g)
      invariant forall g :: g in groups ==> g.groupId !in remaining
      invariant forall id :: id in maps.members.Keys - remaining ==> HasGroup(groups, id)
      decreases |remaining|
    {
      var id :| id in remaining;
      assert MapsHold(files, classes, maps, id);
      var diffBytes := maps.sizes[id];
      var budget := if diffBytes > hard then SplitRequired else if diffBytes > target then OverTarget else WithinTarget;
      var group := Group(id, maps.risks[id], maps.reasons[id], diffBytes, maps.members[id], budget);
      assert IsGroupOf(files, classes, target, hard, group);
      ghost var before := groups;
      groups := groups + [group];
      remaining := remaining - {id};
      forall other | other in maps.members.Keys - remaining
        ensures HasGroup(groups, other)
      {
        assert group in groups;
        if other != id {
          assert HasGroup(before, other);
        }
      }
    }
    forall id | FirstClass(files, classes, id).Some?
      ensures HasGroup(groups, id)
    {
      assert MapsHold(files, classes, maps, id);
    }
    groups := SortGroups(groups);
  }

  lemma GroupOrder()
    ensures WeakOrder(GroupBefore)
  {
    LessIsWeakOrder();
  }

  /** `sort_by` on the group id. */
  function SortGroups(groups: seq<Group>): (r: seq<Group>)
    requires forall i, j :: 0 <= i < j < |groups| ==> groups[i].groupId != groups[j].groupId
    ensures AscendingGroups(r)
    ensures forall g :: g in r <==> g in groups
  {
    GroupOrder();
    assert NoTies(groups, GroupBefore) by {
      forall i, j | 0 <= i < j < |groups|
        ensures GroupBefore(groups[i], groups[j]) || GroupBefore(groups[j], groups[i])
      {
        LessTotal(groups[i].groupId, groups[j].groupId);
      }
    }
    SortAscends(groups, GroupBefore);
    SortKeepsMembers(groups, GroupBefore);
    Sort(groups, GroupBefore)
  }

  /** The groups do not depend on the order in which the hash maps are walked. */
  lemma GroupsUnique(files: seq<ChangedFile>, classes: Classes, target: nat, hard: nat, a: seq<Group>, b: seq<Group>)
    requires GroupsOf(files, classes, target, hard, a) && GroupsOf(files, classes, target, hard, b)
    ensures a == b
  {
    forall g
      ensures g in a <==> g in b
    {
      GroupIsListed(files, classes, target, hard, a, b, g);
      GroupIsListed(files, classes, target, hard, b, a, g);
    }
    GroupOrder();
    Sorting.AscendingUnique(a, b, GroupBefore);
  }

  lemma GroupIsListed(
    files: seq<ChangedFile>, classes: Classes, target: nat, hard: nat, a: seq<Group>, b: seq<Group>, g: Group)
    requires GroupsOf(files, classes, target, hard, a) && GroupsOf(files, classes, target, hard, b)
    ensures g in a ==> g in b
  {
    if g in a {
      assert IsGroupOf(files, classes, target, hard, g);
      assert HasGroup(b, g.groupId);
      var x :| x in b && x.groupId == g.groupId;
      assert IsGroupOf(files, classes, target, hard, x);
    }
  }

  // ---------------------------------------------------------------- the work order

  function WorkItemOf(g: Group): WorkItem {
    if g.budget == SplitRequired then WorkItem(1, g.groupId, SplitAction)
    else if g.risk == High then WorkItem(2, g.groupId, ReviewAction)
    else if g.risk == Consistency then WorkItem(3, g.groupId, ReviewAction)
    else WorkItem(4, g.groupId, ReviewAction)
  }

  predicate WorkBefore(a: WorkItem, b: WorkItem) {
    a.priority < b.priority || (a.priority == b.priority && Less(a.groupId, b.groupId))
  }

  ghost predicate AscendingWork(items: seq<WorkItem>) {
    forall i, j :: 0 <= i < j < |items| ==> WorkBefore(items[i], items[j])
  }

  /** The work order: one item for each group, by priority and then by group id. */
  ghost predicate WorkOrderOf(groups: seq<Group>, items: seq<WorkItem>) {
    && AscendingWork(items)
    && forall x :: x in items <==> exists g :: g in groups && x == WorkItemOf(g)
  }

  lemma WorkOrder()
    ensures WeakOrder(WorkBefore)
  {
    LessIsWeakOrder();
  }

  ghost predicate DistinctWorkIds(items: seq<WorkItem>) {
    forall i, j :: 0 <= i < j < |items| ==> items[i].groupId != items[j].groupId
  }

  /** `sort_by` on priority and group id. */
  function SortWork(items: seq<WorkItem>): (r: seq<WorkItem>)
    requires DistinctWorkIds(items)
    ensures AscendingWork(r)
    ensures forall y :: y in r <==> y in items
  {
    WorkOrder();
    assert NoTies(items, WorkBefore) by {
      forall i, j | 0 <= i < j < |items|
        ensures WorkBefore(items[i], items[j]) || WorkBefore(items[j], items[i])
      {
        LessTotal(items[i].groupId, items[j].groupId);
      }
    }
    SortAscends(items, WorkBefore);
    SortKeepsMembers(items, WorkBefore);
    Sort(items, WorkBefore)
  }

  lemma AscendingGroupsAreDistinct(groups: seq<Group>, items: seq<WorkItem>)
    requires AscendingGroups(groups) && |items| == |groups|
    requires forall i :: 0 <= i < |items| ==> items[i] == WorkItemOf(groups[i])
    ensures DistinctWorkIds(items)
  {
    forall i, j | 0 <= i < j < |items|
      ensures items[i].groupId != items[j].groupId
    {
      var a, b := groups[i], groups[j];
      assert Less(a.groupId, b.groupId) && items[i].groupId == a.groupId && items[j].groupId == b.groupId;
      LessIrreflexive(a.groupId);
    }
  }

  method FromParts(groups: seq<Group>) returns (workOrder: seq<WorkItem>)
    requires AscendingGroups(groups)
    ensures WorkOrderOf(groups, workOrder)
  {
    workOrder := seq(|groups|, i requires 0 <= i < |groups| => WorkItemOf(groups[i]));
    ghost var items := workOrder;
    AscendingGroupsAreDistinct(groups, items);
    workOrder := SortWork(workOrder);
    forall g | g in groups
      ensures WorkItemOf(g) in items
    {
      var i :| 0 <= i < |groups| && groups[i] == g;
      assert items[i] == WorkItemOf(g);
    }
  }

  /** Work orders are determined by their items. */
  lemma WorkOrderUnique(a: seq<WorkItem>, b: seq<WorkItem>)
    requires AscendingWork(a) && AscendingWork(b) && forall x :: x in a <==> x in b
    ensures a == b
  {
    WorkOrder();
    Sorting.AscendingUnique(a, b, WorkBefore);
  }

  // ---------------------------------------------------------------- the review plan

  /** The sum of the file counts of the high-risk groups. */
  function HighRiskFiles(groups: seq<Group>): nat {
    if groups == [] then 0
    else HighRiskFiles(groups[1..]) + if groups[0].risk == High then |groups[0].files| else 0
  }
}
