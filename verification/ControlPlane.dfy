/** The emitted control plane, and the independent checker that decides whether it is correct:
    `emit_control_plane` in `collect-diff-context-cli/src/app.rs` and
    `validate_control_plane_invariants` in `scripts/validate_schemas.py`. */
module ControlPlane {
  import opened ByteStrings
  import opened Sorting
  import opened Classification
  import opened ReviewScope
  import opened ScopeFingerprint

  datatype AuthoritativeScope = AuthoritativeScope(fingerprint: Bytes, collectionStart: Bytes, collectionEnd: Bytes,
                                                   units: seq<Unit>, groups: seq<Group>, workOrder: seq<WorkItem>)

  datatype GroupTuple = GroupTuple(groupId: Bytes, risk: Risk, reason: Reason, diffBytes: nat, budget: Budget,
                                   unitIndexes: seq<int>)

  datatype Counts = Counts(units: nat, groups: nat, totals: Totals, splitRequiredGroups: nat)

  datatype Payload = Payload(authoritative: bool, scopeFingerprint: Bytes, collectionStart: Bytes, collectionEnd: Bytes,
                             counts: Counts, units: seq<Unit>, groups: seq<GroupTuple>, workOrder: seq<WorkItem>)

  // ---------------------------------------------------------------- emitting

  datatype Totals = Totals(additions: nat, deletions: nat, diffBytes: nat, highRiskUnits: nat)

  function TotalsOf(units: seq<Unit>): Totals {
    if units == [] then Totals(0, 0, 0, 0)
    else
      var n := |units| - 1;
      var t, u := TotalsOf(units[..n]), units[n];
      Totals(t.additions + u.additions, t.deletions + u.deletions, t.diffBytes + u.diffBytes,
             t.highRiskUnits + if u.tag == HighRiskTag then 1 else 0)
  }

  /** The indexes of the units of a group. */
  function IndexesOf(units: seq<Unit>, id: Bytes): seq<int> {
    if units == [] then []
    else
      var n := |units| - 1;
      IndexesOf(units[..n], id) + if units[n].groupId == id then [n] else []
  }

  function SplitGroups(groups: seq<Group>): nat {
    if groups == [] then 0
    else
      var n := |groups| - 1;
      SplitGroups(groups[..n]) + if groups[n].budget == SplitRequired then 1 else 0
  }

  function TupleOf(units: seq<Unit>, g: Group): GroupTuple {
    GroupTuple(g.groupId, g.risk, g.reason, g.diffBytes, g.budget, IndexesOf(units, g.groupId))
  }

  function TuplesOf(units: seq<Unit>, groups: seq<Group>): (r: seq<GroupTuple>)
    ensures |r| == |groups|
    ensures forall i :: 0 <= i < |r| ==> r[i] == TupleOf(units, groups[i])
  {
    seq(|groups|, i requires 0 <= i < |groups| => TupleOf(units, groups[i]))
  }

  function Emit(scope: AuthoritativeScope): Payload {
    Payload(true, scope.fingerprint, scope.collectionStart, scope.collectionEnd,
            Counts(|scope.units|, |scope.groups|, TotalsOf(scope.units), SplitGroups(scope.groups)),
            scope.units, TuplesOf(scope.units, scope.groups), scope.workOrder)
  }

  // ---------------------------------------------------------------- the checker

  function SplitTuples(groups: seq<GroupTuple>): nat {
    if groups == [] then 0
    else (if groups[0].budget == SplitRequired then 1 else 0) + SplitTuples(groups[1..])
  }

  /** `sum` over the units. */
  function Total(units: seq<Unit>, value: Unit -> nat): nat {
    if units == [] then 0 else value(units[0]) + Total(units[1..], value)
  }

  predicate CountsMatch(p: Payload) {
    && p.counts.units == |p.units|
    && p.counts.groups == |p.groups|
    && p.counts.totals.additions == Total(p.units, (u: Unit) => u.additions)
    && p.counts.totals.deletions == Total(p.units, (u: Unit) => u.deletions)
    && p.counts.totals.diffBytes == Total(p.units, (u: Unit) => u.diffBytes)
    && p.counts.totals.highRiskUnits == Total(p.units, (u: Unit) => if u.tag == HighRiskTag then 1 else 0)
    && p.counts.splitRequiredGroups == SplitTuples(p.groups)
  }

  predicate DistinctGroupIds(groups: seq<GroupTuple>) {
    forall i, j :: 0 <= i < j < |groups| ==> groups[i].groupId != groups[j].groupId
  }

  function SumAt(units: seq<Unit>, indexes: seq<int>): nat
    requires forall i :: i in indexes ==> 0 <= i < |units|
  {
    if indexes == [] then 0
    else
      var n := |indexes| - 1;
      assert forall i :: i in indexes[..n] ==> i in indexes;
      assert indexes[n] in indexes;
      SumAt(units, indexes[..n]) + units[indexes[n]].diffBytes
  }

  predicate GroupMatches(units: seq<Unit>, g: GroupTuple) {
    && (forall i :: i in g.unitIndexes ==> 0 <= i < |units|)
    && (forall i, j :: 0 <= i < j < |g.unitIndexes| ==> g.unitIndexes[i] != g.unitIndexes[j])
    && (forall i :: i in g.unitIndexes ==> units[i].groupId == g.groupId)
    && g.diffBytes == SumAt(units, g.unitIndexes)
  }

  /** All indexes of all groups, in the order of the groups. */
  function CoveredIndexes(groups: seq<GroupTuple>): seq<int> {
    if groups == [] then [] else groups[0].unitIndexes + CoveredIndexes(groups[1..])
  }

  predicate IntBefore(a: int, b: int) {
    a < b
  }

  function Range(n: nat): (r: seq<int>)
    ensures |r| == n
    ensures forall i :: 0 <= i < n ==> r[i] == i
  {
    seq(n, i => i)
  }

  function ExpectedItem(g: GroupTuple): WorkItem {
    if g.budget == SplitRequired then WorkItem(1, g.groupId, SplitAction)
    else if g.risk == High then WorkItem(2, g.groupId, ReviewAction)
    else if g.risk == Consistency then WorkItem(3, g.groupId, ReviewAction)
    else WorkItem(4, g.groupId, ReviewAction)
  }

  function ExpectedItems(groups: seq<GroupTuple>): (r: seq<WorkItem>)
    ensures |r| == |groups|
    ensures forall i :: 0 <= i < |r| ==> r[i] == ExpectedItem(groups[i])
  {
    seq(|groups|, i requires 0 <= i < |groups| => ExpectedItem(groups[i]))
  }

  function ExpectedWorkOrder(groups: seq<GroupTuple>): seq<WorkItem>
    requires DistinctGroupIds(groups)
  {
    var items := ExpectedItems(groups);
    assert DistinctWorkIds(items) by {
      forall i, j | 0 <= i < j < |items|
        ensures items[i].groupId != items[j].groupId
      {
        assert groups[i].groupId != groups[j].groupId;
      }
    }
    SortWork(items)
  }

  ghost predicate HasTuple(groups: seq<GroupTuple>, id: Bytes) {
    exists g :: g in groups && g.groupId == id
  }

  ghost predicate HasWork(items: seq<WorkItem>, id: Bytes) {
    exists x :: x in items && x.groupId == id
  }

  /** The ids of the work order are distinct and are the ids of the groups. */
  ghost predicate WorkCoversGroups(items: seq<WorkItem>, groups: seq<GroupTuple>) {
    DistinctWorkIds(items) && forall id :: HasWork(items, id) <==> HasTuple(groups, id)
  }

  ghost predicate ControlPlaneInvariants(p: Payload) {
    p.authoritative ==>
      && CountsMatch(p)
      && p.collectionStart == p.scopeFingerprint && p.collectionEnd == p.scopeFingerprint
      && DistinctGroupIds(p.groups)
      && (forall g :: g in p.groups ==> GroupMatches(p.units, g))
      && Sort(CoveredIndexes(p.groups), IntBefore) == Range(|p.units|)
      && WorkCoversGroups(p.workOrder, p.groups)
      && p.workOrder == ExpectedWorkOrder(p.groups)
  }

  // ---------------------------------------------------------------- groups partition the units

  lemma {:induction false} IndexesExact(units: seq<Unit>, id: Bytes)
    ensures forall i :: i in IndexesOf(units, id) <==> 0 <= i < |units| && units[i].groupId == id
    ensures forall i, j :: 0 <= i < j < |IndexesOf(units, id)| ==> IndexesOf(units, id)[i] < IndexesOf(units, id)[j]
  {
    if units != [] {
      var n := |units| - 1;
      IndexesExact(units[..n], id);
      var front := IndexesOf(units[..n], id);
      assert forall i :: 0 <= i < |front| ==> front[i] in front;
    }
  }

  lemma {:induction false} SumAtPrefix(units: seq<Unit>, n: nat, indexes: seq<int>)
    requires n <= |units| && forall i :: i in indexes ==> 0 <= i < n
    ensures SumAt(units, indexes) == SumAt(units[..n], indexes)
  {
    if indexes != [] {
      var k := |indexes| - 1;
      assert forall i :: i in indexes[..k] ==> i in indexes;
      assert indexes[k] in indexes;
      SumAtPrefix(units, n, indexes[..k]);
    }
  }

  /** The bytes accumulated for a group are the sum over the units that its indexes name. */
  lemma {:induction false} BytesAreTheSum(units: seq<Unit>, id: Bytes)
    ensures forall i :: i in IndexesOf(units, id) ==> 0 <= i < |units|
    ensures SumAt(units, IndexesOf(units, id)) == BytesIn(units, id)
  {
    IndexesExact(units, id);
    if units != [] {
      var n := |units| - 1;
      var front := IndexesOf(units[..n], id);
      IndexesExact(units[..n], id);
      BytesAreTheSum(units[..n], id);
      SumAtPrefix(units, n, front);
      assert (front + [n])[..|front|] == front && front + [] == front;
    }
  }

  lemma {:induction false} CountAscending(s: seq<int>, x: int)
    requires forall i, j :: 0 <= i < j < |s| ==> s[i] < s[j]
    ensures multiset(s)[x] == if x in s then 1 else 0
  {
    if s != [] {
      var n := |s| - 1;
      assert s == s[..n] + [s[n]];
      CountAscending(s[..n], x);
    }
  }

  /** A unit's index is covered once when its group is listed, and not at all otherwise. */
  lemma {:induction false} CoveredOnce(units: seq<Unit>, groups: seq<GroupTuple>, i: int)
    requires DistinctGroupIds(groups)
    requires forall g :: g in groups ==> g.unitIndexes == IndexesOf(units, g.groupId)
    ensures multiset(CoveredIndexes(groups))[i]
         == if 0 <= i < |units| && HasTuple(groups, units[i].groupId) then 1 else 0
  {
    if groups != [] {
      var first, rest := groups[0], groups[1..];
      assert groups == [first] + rest;
      assert first in groups;
      IndexesExact(units, first.groupId);
      CountAscending(first.unitIndexes, i);
      CoveredOnce(units, rest, i);
      if 0 <= i < |units| {
        var id := units[i].groupId;
        assert HasTuple(groups, id) <==> first.groupId == id || HasTuple(rest, id) by {
          if g :| g in rest && g.groupId == id {
            assert g in groups;
          }
        }
        assert !(first.groupId == id && HasTuple(rest, id));
      }
    }
  }

  lemma CoveredLikeRange(units: seq<Unit>, groups: seq<GroupTuple>, i: int)
    requires DistinctGroupIds(groups)
    requires forall g :: g in groups ==> g.unitIndexes == IndexesOf(units, g.groupId)
    requires forall u :: u in units ==> HasTuple(groups, u.groupId)
    ensures multiset(CoveredIndexes(groups))[i] == multiset(Range(|units|))[i]
  {
    var range := Range(|units|);
    CoveredOnce(units, groups, i);
    CountAscending(range, i);
    if 0 <= i < |units| {
      assert units[i] in units;
      assert range[i] == i;
    }
  }

  /** Groups with distinct ids that list the indexes of their units partition the units. */
  lemma GroupsPartition(units: seq<Unit>, groups: seq<GroupTuple>)
    requires DistinctGroupIds(groups)
    requires forall g :: g in groups ==> g.unitIndexes == IndexesOf(units, g.groupId)
    requires forall u :: u in units ==> HasTuple(groups, u.groupId)
    ensures Sort(CoveredIndexes(groups), IntBefore) == Range(|units|)
  {
    var covered, range := CoveredIndexes(groups), Range(|units|);
    forall i
      ensures multiset(covered)[i] == multiset(range)[i]
    {
      CoveredLikeRange(units, groups, i);
    }
    assert multiset(covered) == multiset(range);
    SortOrders(covered, IntBefore);
    SortedUnique(Sort(covered, IntBefore), range, IntBefore);
  }

  // ---------------------------------------------------------------- the producer satisfies the checker

  lemma {:induction false} TotalOfLast(units: seq<Unit>, u: Unit, value: Unit -> nat)
    ensures Total(units + [u], value) == Total(units, value) + value(u)
  {
    if units == [] {
      assert [u][1..] == [];
    } else {
      TotalOfLast(units[1..], u, value);
      assert (units + [u])[1..] == units[1..] + [u];
    }
  }

  /** The totals accumulated in one pass are the four sums. */
  lemma {:induction false} TotalsAgree(units: seq<Unit>)
    ensures TotalsOf(units).additions == Total(units, (u: Unit) => u.additions)
    ensures TotalsOf(units).deletions == Total(units, (u: Unit) => u.deletions)
    ensures TotalsOf(units).diffBytes == Total(units, (u: Unit) => u.diffBytes)
    ensures TotalsOf(units).highRiskUnits == Total(units, (u: Unit) => if u.tag == HighRiskTag then 1 else 0)
  {
    if units != [] {
      var n := |units| - 1;
      TotalsAgree(units[..n]);
      assert units == units[..n] + [units[n]];
      TotalOfLast(units[..n], units[n], (u: Unit) => u.additions);
      TotalOfLast(units[..n], units[n], (u: Unit) => u.deletions);
      TotalOfLast(units[..n], units[n], (u: Unit) => u.diffBytes);
      TotalOfLast(units[..n], units[n], (u: Unit) => if u.tag == HighRiskTag then 1 else 0);
    }
  }

  lemma {:induction false} SplitCountsAgree(units: seq<Unit>, groups: seq<Group>)
    ensures SplitTuples(TuplesOf(units, groups)) == SplitGroups(groups)
  {
    if groups != [] {
      var n := |groups| - 1;
      SplitCountsAgree(units, groups[..n]);
      var front := TuplesOf(units, groups[..n]);
      assert TuplesOf(units, groups) == front + [TupleOf(units, groups[n])];
      SplitTuplesAppend(front, TupleOf(units, groups[n]));
    }
  }

  lemma {:induction false} SplitTuplesAppend(groups: seq<GroupTuple>, g: GroupTuple)
    ensures SplitTuples(groups + [g]) == SplitTuples(groups) + if g.budget == SplitRequired then 1 else 0
  {
    if groups == [] {
      assert [g][1..] == [];
    } else {
      SplitTuplesAppend(groups[1..], g);
      assert (groups + [g])[1..] == groups[1..] + [g];
    }
  }

  /** Every unit belongs to a group in use. */
  lemma {:induction false} UnitHasClass(files: seq<ChangedFile>, classes: Classes, i: nat)
    requires i < |files|
    ensures FirstClass(files, classes, classes(files[i].path).groupId).Some?
  {
    if i > 0 {
      UnitHasClass(files[1..], classes, i - 1);
    }
  }

  lemma TuplesMatch(files: seq<ChangedFile>, classes: Classes, target: nat, hard: nat, groups: seq<Group>)
    requires GroupsOf(files, classes, target, hard, groups)
    ensures var units := UnitsOf(files, classes);
            var tuples := TuplesOf(units, groups);
            && DistinctGroupIds(tuples)
            && (forall g :: g in tuples ==> g.unitIndexes == IndexesOf(units, g.groupId) && GroupMatches(units, g))
            && (forall u :: u in units ==> HasTuple(tuples, u.groupId))
  {
    var units := UnitsOf(files, classes);
    var tuples := TuplesOf(units, groups);
    forall i, j | 0 <= i < j < |groups|
      ensures groups[i].groupId != groups[j].groupId
    {
      LessIrreflexive(groups[i].groupId);
    }
    forall i | 0 <= i < |groups|
      ensures GroupMatches(units, tuples[i])
    {
      assert groups[i] in groups;
      IndexesExact(units, groups[i].groupId);
      BytesAreTheSum(units, groups[i].groupId);
    }
    forall i | 0 <= i < |units|
      ensures HasTuple(tuples, units[i].groupId)
    {
      UnitHasClass(files, classes, i);
      var g :| g in groups && g.groupId == units[i].groupId;
      var k :| 0 <= k < |groups| && groups[k] == g;
      assert tuples[k] in tuples;
    }
  }

  lemma ExpectedItemsExact(units: seq<Unit>, groups: seq<Group>, x: WorkItem)
    ensures x in ExpectedItems(TuplesOf(units, groups)) <==> exists g :: g in groups && x == WorkItemOf(g)
  {
    var expected := ExpectedItems(TuplesOf(units, groups));
    if x in expected {
      var i :| 0 <= i < |expected| && expected[i] == x;
      assert groups[i] in groups && x == WorkItemOf(groups[i]);
    }
    if g :| g in groups && x == WorkItemOf(g) {
      var i :| 0 <= i < |groups| && groups[i] == g;
      assert expected[i] == x;
    }
  }

  lemma WorkIdsMatch(groups: seq<Group>, workOrder: seq<WorkItem>, tuples: seq<GroupTuple>, id: Bytes)
    requires WorkOrderOf(groups, workOrder) && |tuples| == |groups|
    requires forall i :: 0 <= i < |groups| ==> tuples[i].groupId == groups[i].groupId
    ensures HasWork(workOrder, id) <==> HasTuple(tuples, id)
  {
    if HasTuple(tuples, id) {
      var t :| t in tuples && t.groupId == id;
      var i :| 0 <= i < |tuples| && tuples[i] == t;
      assert WorkItemOf(groups[i]) in workOrder;
    }
    if HasWork(workOrder, id) {
      var x :| x in workOrder && x.groupId == id;
      var g :| g in groups && x == WorkItemOf(g);
      var i :| 0 <= i < |groups| && groups[i] == g;
      assert tuples[i] in tuples;
    }
  }

  lemma WorkIdsDiffer(groups: seq<Group>, workOrder: seq<WorkItem>, i: nat, j: nat)
    requires AscendingGroups(groups) && WorkOrderOf(groups, workOrder) && i < j < |workOrder|
    ensures workOrder[i].groupId != workOrder[j].groupId
  {
    assert workOrder[i] in workOrder && workOrder[j] in workOrder;
    assert WorkBefore(workOrder[i], workOrder[j]);
    var g :| g in groups && workOrder[i] == WorkItemOf(g);
    var h :| h in groups && workOrder[j] == WorkItemOf(h);
    LessIrreflexive(g.groupId);
  }

  /** Every scope built from collected units, groups and their work order passes the checker. */
  lemma ScopeSatisfiesChecker(files: seq<ChangedFile>, classes: Classes, target: nat, hard: nat,
                              groups: seq<Group>, workOrder: seq<WorkItem>, fingerprint: Bytes)
    requires GroupsOf(files, classes, target, hard, groups) && WorkOrderOf(groups, workOrder)
    ensures ControlPlaneInvariants(
      Emit(AuthoritativeScope(fingerprint, fingerprint, fingerprint, UnitsOf(files, classes), groups, workOrder)))
  {
    var units := UnitsOf(files, classes);
    TuplesMatch(files, classes, target, hard, groups);
    var tuples := TuplesOf(units, groups);
    GroupsPartition(units, tuples);
    var expected := ExpectedItems(tuples);
    forall x
      ensures x in workOrder <==> x in expected
    {
      ExpectedItemsExact(units, groups, x);
    }
    WorkOrderUnique(workOrder, ExpectedWorkOrder(tuples));
    forall i, j | 0 <= i < j < |workOrder|
      ensures workOrder[i].groupId != workOrder[j].groupId
    {
      WorkIdsDiffer(groups, workOrder, i, j);
    }
    forall id
      ensures HasWork(workOrder, id) <==> HasTuple(TuplesOf(units, groups), id)
    {
      WorkIdsMatch(groups, workOrder, TuplesOf(units, groups), id);
    }
    TotalsAgree(units);
    SplitCountsAgree(units, groups);
  }

  /** Collection between two fingerprint observations, with the fingerprint that the caller may expect. */
  method OpenAuthoritativeScope(files: seq<ChangedFile>, classes: Classes, target: nat, hard: nat,
                                collectionStart: Bytes, collectionEnd: Bytes, expected: Option<Bytes>)
    returns (r: Result<AuthoritativeScope, ScopeError>)
    ensures r.Ok? <==> collectionStart == collectionEnd && (expected.Some? ==> expected.value == collectionStart)
    ensures expected.Some? && expected.value != collectionStart ==> r == Err(OpeningMismatch)
    ensures !(expected.Some? && expected.value != collectionStart) && collectionEnd != collectionStart ==>
              r == Err(ChangedDuringCollection)
    ensures r.Err? ==> CheckFingerprints(collectionStart, collectionEnd, expected) == Err(r.error)
    ensures r.Ok? ==>
      && r.value.fingerprint == r.value.collectionStart == r.value.collectionEnd == collectionStart
      && r.value.units == UnitsOf(files, classes)
      && GroupsOf(files, classes, target, hard, r.value.groups)
      && WorkOrderOf(r.value.groups, r.value.workOrder)
      && ControlPlaneInvariants(Emit(r.value))
  {
    if expected.Some? && expected.value != collectionStart {
      return Err(OpeningMismatch);
    }
    var units, groups := Collect(files, classes, target, hard);
    if collectionEnd != collectionStart {
      return Err(ChangedDuringCollection);
    }
    if expected.Some? && expected.value != collectionEnd {
      return Err(FinalMismatch);
    }
    var workOrder := FromParts(groups);
    ScopeSatisfiesChecker(files, classes, target, hard, groups, workOrder, collectionEnd);
    r := Ok(AuthoritativeScope(collectionEnd, collectionStart, collectionEnd, units, groups, workOrder));
  }

  // ---------------------------------------------------------------- the review plan's count

  /** The files of the high-risk groups, with each group's files taken from the units. */
  function HighRiskMembers(groups: seq<Group>, units: seq<Unit>): nat {
    if groups == [] then 0
    else
      HighRiskMembers(groups[1..], units)
      + if groups[0].risk == High then |FilesIn(units, groups[0].groupId)| else 0
  }

  ghost predicate HasHighRiskGroup(groups: seq<Group>, id: Bytes) {
    exists g :: g in groups && g.groupId == id && g.risk == High
  }

  lemma {:induction false} OneMoreMember(groups: seq<Group>, units: seq<Unit>, u: Unit)
    requires AscendingGroups(groups)
    ensures HighRiskMembers(groups, units + [u])
         == HighRiskMembers(groups, units) + if HasHighRiskGroup(groups, u.groupId) then 1 else 0
  {
    if groups != [] {
      var first, rest := groups[0], groups[1..];
      assert groups == [first] + rest;
      OneMoreMember(rest, units, u);
      TotalsNext(units, u, first.groupId);
      if g :| g in rest && g.groupId == u.groupId && g.risk == High {
        assert g in groups;
        LessIrreflexive(g.groupId);
      }
      assert HasHighRiskGroup(groups, u.groupId)
        <==> HasHighRiskGroup(rest, u.groupId) || (first.groupId == u.groupId && first.risk == High);
    }
  }

  lemma {:induction false} MembersAreTagged(groups: seq<Group>, units: seq<Unit>)
    requires AscendingGroups(groups)
    requires forall u :: u in units ==> (u.tag == HighRiskTag <==> HasHighRiskGroup(groups, u.groupId))
    ensures HighRiskMembers(groups, units) == TotalsOf(units).highRiskUnits
  {
    if units == [] {
      NoMembers(groups);
    } else {
      var n := |units| - 1;
      assert units == units[..n] + [units[n]];
      OneMoreMember(groups, units[..n], units[n]);
      MembersAreTagged(groups, units[..n]);
    }
  }

  lemma {:induction false} NoMembers(groups: seq<Group>)
    ensures HighRiskMembers(groups, []) == 0
  {
    if groups != [] {
      NoMembers(groups[1..]);
    }
  }

  lemma {:induction false} FilesAreMembers(groups: seq<Group>, units: seq<Unit>)
    requires forall g :: g in groups ==> g.files == FilesIn(units, g.groupId)
    ensures HighRiskFiles(groups) == HighRiskMembers(groups, units)
  {
    if groups != [] {
      assert groups == [groups[0]] + groups[1..];
      FilesAreMembers(groups[1..], units);
    }
  }

  /** The review plan counts the files of high-risk groups, the control plane counts high-risk
      units; for the real classification both counts are the same. */
  lemma PlanCountsHighRiskUnits(files: seq<ChangedFile>, c: Classifier, target: nat, hard: nat, groups: seq<Group>)
    requires var classes := p => Classify(p, c); GroupsOf(files, classes, target, hard, groups)
    ensures HighRiskFiles(groups) == TotalsOf(UnitsOf(files, p => Classify(p, c))).highRiskUnits
  {
    var classes := p => Classify(p, c);
    var units := UnitsOf(files, classes);
    forall i | 0 <= i < |units|
      ensures units[i].tag == HighRiskTag <==> HasHighRiskGroup(groups, units[i].groupId)
    {
      RiskIsInThePrefix(files[i].path, c);
      UnitHasClass(files, classes, i);
      var id := units[i].groupId;
      FirstClassRisk(files, c, id);
      var g :| g in groups && g.groupId == id;
      assert IsGroupOf(files, classes, target, hard, g);
      if h :| h in groups && h.groupId == id && h.risk == High {
        assert IsGroupOf(files, classes, target, hard, h);
      }
    }
    forall g | g in groups
      ensures g.files == FilesIn(units, g.groupId)
    {
      assert IsGroupOf(files, classes, target, hard, g);
    }
    FilesAreMembers(groups, units);
    MembersAreTagged(groups, units);
  }

  lemma {:induction false} FirstClassRisk(files: seq<ChangedFile>, c: Classifier, id: Bytes)
    ensures var first := FirstClass(files, p => Classify(p, c), id);
            first.Some? ==> first.value.groupId == id && first.value.risk == RiskOf(id)
  {
    if files != [] {
      RiskIsInThePrefix(files[0].path, c);
      FirstClassRisk(files[1..], c, id);
    }
  }
}
