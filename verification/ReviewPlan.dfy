/** The review plan: `build_review_plan` in `collect-diff-context-cli/src/app.rs`. */
module ReviewPlan {
  import opened ByteStrings
  import opened Sorting
  import opened Classification
  import opened ReviewScope
  import opened ControlPlane

  /** Unit ids are the display paths with a fixed prefix, so the path stands for the id. */
  datatype PlanEntry = PlanEntry(
    item: WorkItem, risk: Risk, reason: Reason, budget: Budget, diffBytes: nat, requiredUnits: seq<Bytes>,
    files: seq<Bytes>)

  /** Priority and action, along the branches of the plan. */
  function PlanItem(g: Group): WorkItem {
    if g.budget == SplitRequired then WorkItem(1, g.groupId, SplitAction)
    else
      var priority :=
        if g.budget == OverTarget then if g.risk == High then 2 else if g.risk == Consistency then 3 else 4
        else if g.risk == High then 2
        else if g.risk == Consistency then 3
        else 4;
      WorkItem(priority, g.groupId, ReviewAction)
  }

  function EntryOf(units: seq<Unit>, g: Group): PlanEntry {
    PlanEntry(PlanItem(g), g.risk, g.reason, g.budget, g.diffBytes, FilesIn(units, g.groupId), g.files)
  }

  predicate EntryBefore(a: PlanEntry, b: PlanEntry) {
    WorkBefore(a.item, b.item)
  }

  function ItemsOf(plan: seq<PlanEntry>): (items: seq<WorkItem>)
    ensures |items| == |plan|
    ensures forall i :: 0 <= i < |plan| ==> items[i] == plan[i].item
  {
    seq(|plan|, i requires 0 <= i < |plan| => plan[i].item)
  }

  method BuildReviewPlan(units: seq<Unit>, groups: seq<Group>)
    returns (plan: seq<PlanEntry>, highRiskUnits: nat, splitRequiredGroups: nat)
    requires AscendingGroups(groups)
    ensures WorkOrderOf(groups, ItemsOf(plan))
    ensures forall e :: e in plan <==> exists g :: g in groups && e == EntryOf(units, g)
    ensures |plan| == |groups|
    ensures highRiskUnits == HighRiskFiles(groups)
    ensures splitRequiredGroups == SplitGroups(groups)
  {
    plan, highRiskUnits, splitRequiredGroups := [], 0, 0;
    assert groups[0..] == groups && groups[..0] == [];
    for n := 0 to |groups|
      invariant |plan| == n && forall i :: 0 <= i < n ==> plan[i] == EntryOf(units, groups[i])
      invariant highRiskUnits + HighRiskFiles(groups[n..]) == HighRiskFiles(groups)
      invariant splitRequiredGroups == SplitGroups(groups[..n])
    {
      var g := groups[n];
      var priority, action := 4, ReviewAction;
      if g.budget == SplitRequired {
        priority, action := 1, SplitAction;
        splitRequiredGroups := splitRequiredGroups + 1;
      } else if g.budget == OverTarget {
        if g.risk == High {
          priority := 2;
        } else if g.risk == Consistency {
          priority := 3;
        }
      } else if g.risk == High {
        priority := 2;
      } else if g.risk == Consistency {
        priority := 3;
      }
      if g.risk == High {
        highRiskUnits := highRiskUnits + |g.files|;
      }
      plan := plan + [PlanEntry(WorkItem(priority, g.groupId, action), g.risk, g.reason, g.budget, g.diffBytes,
                                FilesIn(units, g.groupId), g.files)];
      assert groups[n..][1..] == groups[n + 1..];
      assert groups[..n + 1][..n] == groups[..n];
    }
    assert groups[..|groups|] == groups;
    SortedPlan(units, groups, plan);
    plan := Sort(plan, EntryBefore);
  }

  lemma SortedPlan(units: seq<Unit>, groups: seq<Group>, plan: seq<PlanEntry>)
    requires AscendingGroups(groups) && |plan| == |groups|
    requires forall i :: 0 <= i < |plan| ==> plan[i] == EntryOf(units, groups[i])
    ensures var sorted := Sort(plan, EntryBefore);
            && |sorted| == |groups|
            && WorkOrderOf(groups, ItemsOf(sorted))
            && forall e :: e in sorted <==> exists g :: g in groups && e == EntryOf(units, g)
  {
    var sorted := Sort(plan, EntryBefore);
    PlanAscends(units, groups, plan);
    SortKeepsMembers(plan, EntryBefore);
    forall e
      ensures e in sorted <==> exists g :: g in groups && e == EntryOf(units, g)
    {
      if g :| g in groups && e == EntryOf(units, g) {
        var i :| 0 <= i < |groups| && groups[i] == g;
        assert plan[i] == e;
      }
    }
    ItemsAreWork(units, groups, sorted);
  }

  lemma PlanAscends(units: seq<Unit>, groups: seq<Group>, plan: seq<PlanEntry>)
    requires AscendingGroups(groups) && |plan| == |groups|
    requires forall i :: 0 <= i < |plan| ==> plan[i] == EntryOf(units, groups[i])
    ensures Ascends(Sort(plan, EntryBefore), EntryBefore)
  {
    LessIsWeakOrder();
    assert NoTies(plan, EntryBefore);
    SortAscends(plan, EntryBefore);
  }

  lemma ItemsAreWork(units: seq<Unit>, groups: seq<Group>, sorted: seq<PlanEntry>)
    requires Ascends(sorted, EntryBefore)
    requires forall e :: e in sorted <==> exists g :: g in groups && e == EntryOf(units, g)
    ensures WorkOrderOf(groups, ItemsOf(sorted))
  {
    var items := ItemsOf(sorted);
    forall x
      ensures x in items <==> exists g :: g in groups && x == WorkItemOf(g)
    {
      assert forall g :: EntryOf(units, g).item == WorkItemOf(g);
      if i :| 0 <= i < |items| && items[i] == x {
        assert sorted[i] in sorted;
      }
      if g :| g in groups && x == WorkItemOf(g) {
        var e := EntryOf(units, g);
        assert e in sorted;
        var i :| 0 <= i < |sorted| && sorted[i] == e;
        assert items[i] == x;
      }
    }
  }

  /** The review plan lists the groups in the order of the scope's work order, and requires of each group
      exactly the files that the group names. */
  lemma PlanMatchesTheScope(files: seq<ChangedFile>, classes: Classes, target: nat, hard: nat, groups: seq<Group>,
                            workOrder: seq<WorkItem>, plan: seq<PlanEntry>)
    requires GroupsOf(files, classes, target, hard, groups) && WorkOrderOf(groups, workOrder)
    requires WorkOrderOf(groups, ItemsOf(plan))
    requires forall e :: e in plan <==> exists g :: g in groups && e == EntryOf(UnitsOf(files, classes), g)
    ensures ItemsOf(plan) == workOrder
    ensures forall e :: e in plan ==> e.requiredUnits == e.files
  {
    WorkOrderUnique(ItemsOf(plan), workOrder);
    forall e | e in plan
      ensures e.requiredUnits == e.files
    {
      var g :| g in groups && e == EntryOf(UnitsOf(files, classes), g);
      assert IsGroupOf(files, classes, target, hard, g);
    }
  }
}
