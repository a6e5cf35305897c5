/** What the independent checker of the control plane accepts: `validate_control_plane_invariants` in
    `scripts/validate_schemas.py`, said of the units and groups themselves. */
module ScopeChecked {
  import opened ByteStrings
  import opened Sorting
  import opened Classification
  import opened ReviewScope
  import opened ControlPlane

  // ---------------------------------------------------------------- counts

  /** How many units carry the high-risk tag. */
  function HighRiskPlaces(units: seq<Unit>): set<int> {
    set i | 0 <= i < |units| && units[i].tag == HighRiskTag
  }

  function SplitPlaces(groups: seq<GroupTuple>): set<int> {
    set i | 0 <= i < |groups| && groups[i].budget == SplitRequired
  }

  lemma HighRiskOfOneMore(units: seq<Unit>, u: Unit)
    ensures HighRiskPlaces(units + [u])
         == HighRiskPlaces(units) + if u.tag == HighRiskTag then {|units|} else {}
  {
    assert forall i :: 0 <= i < |units| ==> (units + [u])[i] == units[i];
  }

  lemma {:induction false} HighRiskIsCounted(units: seq<Unit>)
    ensures Total(units, (u: Unit) => if u.tag == HighRiskTag then 1 else 0) == |HighRiskPlaces(units)|
  {
    if units != [] {
      var front, u := units[..|units| - 1], units[|units| - 1];
      assert units == front + [u];
      HighRiskIsCounted(front);
      HighRiskOfOneMore(front, u);
      TotalOfLast(front, u, (u: Unit) => if u.tag == HighRiskTag then 1 else 0);
    }
  }

  lemma SplitOfOneMore(groups: seq<GroupTuple>, g: GroupTuple)
    ensures SplitPlaces(groups + [g])
         == SplitPlaces(groups) + if g.budget == SplitRequired then {|groups|} else {}
  {
    assert forall i :: 0 <= i < |groups| ==> (groups + [g])[i] == groups[i];
  }

  lemma {:induction false} SplitIsCounted(groups: seq<GroupTuple>)
    ensures SplitTuples(groups) == |SplitPlaces(groups)|
  {
    if groups != [] {
      var front, g := groups[..|groups| - 1], groups[|groups| - 1];
      assert groups == front + [g];
      SplitIsCounted(front);
      SplitOfOneMore(front, g);
      SplitTuplesAppend(front, g);
    }
  }

  // ---------------------------------------------------------------- groups

  /** The tuple lists every unit of its group once, in whatever order, and nothing else. */
  ghost predicate ListsItsUnits(units: seq<Unit>, t: GroupTuple) {
    forall i :: multiset(t.unitIndexes)[i] == if 0 <= i < |units| && units[i].groupId == t.groupId then 1 else 0
  }

  lemma CountsOnce(s: seq<int>, x: int)
    requires forall i, j :: 0 <= i < j < |s| ==> s[i] != s[j]
    ensures multiset(s)[x] == if x in s then 1 else 0
  {
    if s != [] {
      var n := |s| - 1;
      assert s == s[..n] + [s[n]];
      CountsOnce(s[..n], x);
    }
  }

  lemma {:induction false} NoRepeats(s: seq<int>)
    requires forall x :: multiset(s)[x] <= 1
    ensures forall i, j :: 0 <= i < j < |s| ==> s[i] != s[j]
  {
    forall i, j | 0 <= i < j < |s|
      ensures s[i] != s[j]
    {
      var front, back := s[..j], s[j..];
      assert s == front + back;
      assert front[i] == s[i] && back[0] == s[j];
      assert s[i] in multiset(front) && s[j] in multiset(back);
      assert multiset(s)[s[i]] == multiset(front)[s[i]] + multiset(back)[s[i]];
    }
  }

  lemma InRange(units: seq<Unit>, a: seq<int>, b: seq<int>)
    requires multiset(a) == multiset(b) && forall i :: i in a ==> 0 <= i < |units|
    ensures forall i :: i in b ==> 0 <= i < |units|
  {
    forall i | i in b
      ensures 0 <= i < |units|
    {
      assert i in multiset(b);
      assert i in a;
    }
  }

  function Without(s: seq<int>, k: nat): (r: seq<int>)
    requires k < |s|
    ensures forall x :: x in r ==> x in s
  {
    s[..k] + s[k + 1..]
  }

  lemma WithoutOne(s: seq<int>, k: nat)
    requires k < |s|
    ensures multiset(s) == multiset(Without(s, k)) + multiset{s[k]}
  {
    assert s == s[..k] + [s[k]] + s[k + 1..];
  }

  lemma {:induction false} SumWithout(units: seq<Unit>, s: seq<int>, k: nat)
    requires (forall i :: i in s ==> 0 <= i < |units|) && k < |s|
    ensures s[k] in s && SumAt(units, s) == SumAt(units, Without(s, k)) + units[s[k]].diffBytes
  {
    var n := |s| - 1;
    var rest := Without(s, k);
    if k == n {
      assert rest == s[..n];
    } else {
      assert forall i :: i in s[..n] ==> i in s;
      SumWithout(units, s[..n], k);
      assert rest[..n - 1] == Without(s[..n], k);
      assert rest[n - 1] == s[n];
    }
  }

  /** The sum does not depend on the order of the indexes. */
  lemma {:induction false} SumInAnyOrder(units: seq<Unit>, a: seq<int>, b: seq<int>)
    requires (forall i :: i in a ==> 0 <= i < |units|) && multiset(a) == multiset(b)
    ensures forall i :: i in b ==> 0 <= i < |units|
    ensures SumAt(units, a) == SumAt(units, b)
  {
    InRange(units, a, b);
    if a == [] {
      assert |b| == |multiset(b)| == 0;
    } else {
      var n := |a| - 1;
      var k := SameLast(a, b);
      assert forall i :: i in a[..n] ==> i in a;
      SumInAnyOrder(units, a[..n], Without(b, k));
      SumWithout(units, b, k);
    }
  }

  lemma SameLast(a: seq<int>, b: seq<int>) returns (k: nat)
    requires a != [] && multiset(a) == multiset(b)
    ensures k < |b| && b[k] == a[|a| - 1] && multiset(a[..|a| - 1]) == multiset(Without(b, k))
  {
    var n := |a| - 1;
    assert a == a[..n] + [a[n]];
    assert a[n] in multiset(b);
    var i :| 0 <= i < |b| && b[i] == a[n];
    k := i;
    WithoutOne(b, k);
    assert multiset(a[..n]) == multiset(a) - multiset{a[n]} == multiset(Without(b, k));
  }

  lemma ListedAsIndexes(units: seq<Unit>, t: GroupTuple)
    requires ListsItsUnits(units, t)
    ensures multiset(t.unitIndexes) == multiset(IndexesOf(units, t.groupId))
  {
    IndexesExact(units, t.groupId);
    forall i
      ensures multiset(t.unitIndexes)[i] == multiset(IndexesOf(units, t.groupId))[i]
    {
      CountAscending(IndexesOf(units, t.groupId), i);
    }
  }

  lemma ListedGroupMatches(units: seq<Unit>, t: GroupTuple)
    requires ListsItsUnits(units, t)
    ensures GroupMatches(units, t) <==> t.diffBytes == BytesIn(units, t.groupId)
  {
    NoRepeats(t.unitIndexes);
    forall i | i in t.unitIndexes
      ensures 0 <= i < |units| && units[i].groupId == t.groupId
    {
      assert i in multiset(t.unitIndexes);
    }
    ListedAsIndexes(units, t);
    BytesAreTheSum(units, t.groupId);
    SumInAnyOrder(units, IndexesOf(units, t.groupId), t.unitIndexes);
  }

  // ---------------------------------------------------------------- the partition

  ghost predicate CoveredBy(t: GroupTuple, i: int) {
    i in t.unitIndexes
  }

  lemma {:induction false} SomeGroupCovers(groups: seq<GroupTuple>, i: int) returns (t: GroupTuple)
    requires i in CoveredIndexes(groups)
    ensures t in groups && CoveredBy(t, i)
  {
    if i in groups[0].unitIndexes {
      t := groups[0];
    } else {
      t := SomeGroupCovers(groups[1..], i);
      assert t in groups[1..];
    }
  }

  /** In a partition with matching groups, every group lists all of its units. */
  lemma PartitionLists(units: seq<Unit>, groups: seq<GroupTuple>, t: GroupTuple)
    requires DistinctGroupIds(groups) && t in groups
    requires forall g :: g in groups ==> GroupMatches(units, g)
    requires Sort(CoveredIndexes(groups), IntBefore) == Range(|units|)
    ensures ListsItsUnits(units, t)
  {
    forall i
      ensures multiset(t.unitIndexes)[i] == if 0 <= i < |units| && units[i].groupId == t.groupId then 1 else 0
    {
      CountsOnce(t.unitIndexes, i);
      if 0 <= i < |units| && units[i].groupId == t.groupId {
        CoveredSomewhere(units, groups, i);
        var g := SomeGroupCovers(groups, i);
        assert GroupMatches(units, g) && g.groupId == t.groupId;
        SameTuple(groups, g, t);
      }
    }
  }

  lemma CoveredSomewhere(units: seq<Unit>, groups: seq<GroupTuple>, i: nat)
    requires Sort(CoveredIndexes(groups), IntBefore) == Range(|units|) && i < |units|
    ensures i in CoveredIndexes(groups)
  {
    SortKeepsMembers(CoveredIndexes(groups), IntBefore);
    assert Range(|units|)[i] == i;
  }

  lemma SameTuple(groups: seq<GroupTuple>, g: GroupTuple, t: GroupTuple)
    requires DistinctGroupIds(groups) && g in groups && t in groups && g.groupId == t.groupId
    ensures g == t
  {
    var i :| 0 <= i < |groups| && groups[i] == g;
    var j :| 0 <= j < |groups| && groups[j] == t;
    assert groups[i].groupId == groups[j].groupId;
  }

  lemma {:induction false} ListedOnce(units: seq<Unit>, groups: seq<GroupTuple>, i: int)
    requires DistinctGroupIds(groups) && forall g :: g in groups ==> ListsItsUnits(units, g)
    ensures multiset(CoveredIndexes(groups))[i]
         == if 0 <= i < |units| && HasTuple(groups, units[i].groupId) then 1 else 0
  {
    if groups != [] {
      var first, rest := groups[0], groups[1..];
      assert groups == [first] + rest;
      assert first in groups;
      ListedOnce(units, rest, i);
      if 0 <= i < |units| {
        var id := units[i].groupId;
        assert HasTuple(groups, id) <==> first.groupId == id || HasTuple(rest, id) by {
          if g :| g in rest && g.groupId == id {
            assert g in groups;
          }
        }
        assert !(first.groupId == id && HasTuple(rest, id));
      }
    }
  }

  /** Groups that list their units partition the units exactly when every unit has a group. */
  lemma PartitionExactly(units: seq<Unit>, groups: seq<GroupTuple>)
    requires DistinctGroupIds(groups) && forall g :: g in groups ==> ListsItsUnits(units, g)
    ensures Sort(CoveredIndexes(groups), IntBefore) == Range(|units|) <==>
            forall u :: u in units ==> HasTuple(groups, u.groupId)
  {
    var covered, range := CoveredIndexes(groups), Range(|units|);
    if forall u :: u in units ==> HasTuple(groups, u.groupId) {
      forall i
        ensures multiset(covered)[i] == multiset(range)[i]
      {
        ListedOnce(units, groups, i);
        CountAscending(range, i);
        assert 0 <= i < |units| ==> units[i] in units && range[i] == i;
      }
      assert multiset(covered) == multiset(range);
      SortOrders(covered, IntBefore);
      SortedUnique(Sort(covered, IntBefore), range, IntBefore);
    }
    if Sort(covered, IntBefore) == range {
      forall u | u in units
        ensures HasTuple(groups, u.groupId)
      {
        var i :| 0 <= i < |units| && units[i] == u;
        CoveredSomewhere(units, groups, i);
        ListedOnce(units, groups, i);
        assert i in multiset(covered);
      }
    }
  }

  // ---------------------------------------------------------------- the work order

  /** Splitting first, then the reviews of high-risk, consistency and other groups. */
  ghost predicate WorkFor(x: WorkItem, t: GroupTuple) {
    && x.groupId == t.groupId
    && (t.budget == SplitRequired ==> x.priority == 1 && x.action == SplitAction)
    && (t.budget != SplitRequired ==>
          && x.action == ReviewAction
          && (t.risk == High ==> x.priority == 2)
          && (t.risk == Consistency ==> x.priority == 3)
          && (t.risk == Medium ==> x.priority == 4))
  }

  lemma OnlyWorkFor(x: WorkItem, t: GroupTuple)
    ensures WorkFor(x, t) <==> x == ExpectedItem(t)
  {
  }

  ghost predicate IsWorkOf(groups: seq<GroupTuple>, x: WorkItem) {
    exists t :: t in groups && WorkFor(x, t)
  }

  ghost predicate HasWorkFor(items: seq<WorkItem>, t: GroupTuple) {
    exists x :: x in items && WorkFor(x, t)
  }

  /** One item for each group and no others, by priority and group id. */
  ghost predicate RightWork(items: seq<WorkItem>, groups: seq<GroupTuple>) {
    && (forall i, j :: 0 <= i < j < |items| ==>
          || items[i].priority < items[j].priority
          || (items[i].priority == items[j].priority && Less(items[i].groupId, items[j].groupId)))
    && (forall t :: t in groups ==> HasWorkFor(items, t))
    && (forall x :: x in items ==> IsWorkOf(groups, x))
  }

  lemma ExpectedIs(groups: seq<GroupTuple>, x: WorkItem)
    ensures x in ExpectedItems(groups) <==> IsWorkOf(groups, x)
  {
    var expected := ExpectedItems(groups);
    if t :| t in groups && WorkFor(x, t) {
      var i :| 0 <= i < |groups| && groups[i] == t;
      OnlyWorkFor(x, t);
      assert expected[i] == x;
    }
    if i :| 0 <= i < |expected| && expected[i] == x {
      OnlyWorkFor(x, groups[i]);
      assert groups[i] in groups;
    }
  }

  lemma WorkIsListed(items: seq<WorkItem>, groups: seq<GroupTuple>, x: WorkItem)
    requires (forall t :: t in groups ==> HasWorkFor(items, t)) && IsWorkOf(groups, x)
    ensures x in items
  {
    var t :| t in groups && WorkFor(x, t);
    var y :| y in items && WorkFor(y, t);
    OnlyWorkFor(x, t);
    OnlyWorkFor(y, t);
  }

  lemma ExpectedIsRight(groups: seq<GroupTuple>)
    requires DistinctGroupIds(groups)
    ensures RightWork(ExpectedWorkOrder(groups), groups)
  {
    var items := ExpectedWorkOrder(groups);
    assert AscendingWork(items);
    forall i, j | 0 <= i < j < |items|
      ensures || items[i].priority < items[j].priority
              || (items[i].priority == items[j].priority && Less(items[i].groupId, items[j].groupId))
    {
      assert WorkBefore(items[i], items[j]);
    }
    forall x
      ensures x in items <==> IsWorkOf(groups, x)
    {
      ExpectedIs(groups, x);
    }
    forall t | t in groups
      ensures HasWorkFor(items, t)
    {
      OnlyWorkFor(ExpectedItem(t), t);
      assert IsWorkOf(groups, ExpectedItem(t));
    }
  }

  lemma WorkExactly(items: seq<WorkItem>, groups: seq<GroupTuple>)
    requires DistinctGroupIds(groups)
    ensures items == ExpectedWorkOrder(groups) <==> RightWork(items, groups)
  {
    ExpectedIsRight(groups);
    if RightWork(items, groups) {
      var expected := ExpectedWorkOrder(groups);
      assert AscendingWork(items);
      forall x
        ensures x in items <==> x in expected
      {
        if IsWorkOf(groups, x) {
          WorkIsListed(items, groups, x);
          WorkIsListed(expected, groups, x);
        }
      }
      WorkOrderUnique(items, expected);
    }
  }

  lemma RightWorkCovers(items: seq<WorkItem>, groups: seq<GroupTuple>)
    requires DistinctGroupIds(groups) && RightWork(items, groups)
    ensures WorkCoversGroups(items, groups)
  {
    forall i, j | 0 <= i < j < |items|
      ensures items[i].groupId != items[j].groupId
    {
      assert items[i] in items && items[j] in items;
      var s :| s in groups && WorkFor(items[i], s);
      var t :| t in groups && WorkFor(items[j], t);
      if s.groupId == t.groupId {
        SameTuple(groups, s, t);
        OnlyWorkFor(items[i], s);
        OnlyWorkFor(items[j], s);
        LessIrreflexive(s.groupId);
      }
    }
    forall id
      ensures HasWork(items, id) <==> HasTuple(groups, id)
    {
      if x :| x in items && x.groupId == id {
        var t :| t in groups && WorkFor(x, t);
      }
      if t :| t in groups && t.groupId == id {
        var x :| x in items && WorkFor(x, t);
      }
    }
  }

  // ---------------------------------------------------------------- the whole payload

  ghost predicate RightCounts(p: Payload) {
    && p.counts.units == |p.units| && p.counts.groups == |p.groups|
    && p.counts.totals.additions == Total(p.units, (u: Unit) => u.additions)
    && p.counts.totals.deletions == Total(p.units, (u: Unit) => u.deletions)
    && p.counts.totals.diffBytes == Total(p.units, (u: Unit) => u.diffBytes)
    && p.counts.totals.highRiskUnits == |HighRiskPlaces(p.units)|
    && p.counts.splitRequiredGroups == |SplitPlaces(p.groups)|
  }

  ghost predicate RightGroups(p: Payload) {
    && (forall i, j :: 0 <= i < j < |p.groups| ==> p.groups[i].groupId != p.groups[j].groupId)
    && (forall t :: t in p.groups ==> ListsItsUnits(p.units, t) && t.diffBytes == BytesIn(p.units, t.groupId))
    && (forall u :: u in p.units ==> exists t :: t in p.groups && t.groupId == u.groupId)
  }

  lemma CountsExactly(p: Payload)
    ensures CountsMatch(p) <==> RightCounts(p)
  {
    HighRiskIsCounted(p.units);
    SplitIsCounted(p.groups);
  }

  lemma GroupsExactly(p: Payload)
    ensures RightGroups(p) <==>
            && DistinctGroupIds(p.groups) && (forall g :: g in p.groups ==> GroupMatches(p.units, g))
            && Sort(CoveredIndexes(p.groups), IntBefore) == Range(|p.units|)
  {
    if RightGroups(p) {
      forall g | g in p.groups
        ensures GroupMatches(p.units, g)
      {
        ListedGroupMatches(p.units, g);
      }
      assert forall u :: u in p.units ==> HasTuple(p.groups, u.groupId);
      PartitionExactly(p.units, p.groups);
    }
    if DistinctGroupIds(p.groups) && (forall g :: g in p.groups ==> GroupMatches(p.units, g))
       && Sort(CoveredIndexes(p.groups), IntBefore) == Range(|p.units|) {
      forall t | t in p.groups
        ensures ListsItsUnits(p.units, t) && t.diffBytes == BytesIn(p.units, t.groupId)
      {
        PartitionLists(p.units, p.groups, t);
        ListedGroupMatches(p.units, t);
      }
      PartitionExactly(p.units, p.groups);
      assert forall u :: u in p.units ==> HasTuple(p.groups, u.groupId);
    }
  }

  /** An authoritative payload is accepted if and only if its counts are right, its fingerprints agree, its
      groups have distinct ids, list exactly their own units with the sum of their bytes, and cover all
      units, and its work order is the right one. */
  lemma CheckerExactly(p: Payload)
    requires p.authoritative
    ensures ControlPlaneInvariants(p) <==>
            && RightCounts(p) && p.collectionStart == p.scopeFingerprint && p.collectionEnd == p.scopeFingerprint
            && RightGroups(p) && RightWork(p.workOrder, p.groups)
  {
    CountsExactly(p);
    GroupsExactly(p);
    if DistinctGroupIds(p.groups) {
      WorkExactly(p.workOrder, p.groups);
      if RightWork(p.workOrder, p.groups) {
        RightWorkCovers(p.workOrder, p.groups);
      }
    }
  }
}
