/** What a collected scope and its review plan say of the changed files:
    `open_authoritative_scope_impl_bounded` and `build_review_plan` in
    `collect-diff-context-cli/src/app.rs`. */
module ScopeContents {
  import opened ByteStrings
  import opened Sorting
  import opened GitPaths
  import opened Classification
  import opened ReviewScope
  import opened ControlPlane
  import opened ReviewPlan

  // ---------------------------------------------------------------- paths, components and classes

  /** The escape of a byte in a quoted path: a letter for the bytes 7 to 13, the quote and the backslash,
      three octal digits for all other bytes that are not printable. */
  lemma EscapeIs(b: byte)
    ensures 7 <= b <= 13 ==> QuoteByte(b) == [92, Ascii("abtnvfr")[b - 7]]
    ensures b == 34 || b == 92 ==> QuoteByte(b) == [92, b]
    ensures 32 <= b < 127 && b != 34 && b != 92 ==> QuoteByte(b) == [b]
    ensures b < 7 || 13 < b < 32 || 127 <= b ==>
              |QuoteByte(b)| == 4 && QuoteByte(b)[0] == 92
              && (forall i :: 1 <= i < 4 ==> 48 <= QuoteByte(b)[i] < 56)
              && (QuoteByte(b)[1] - 48) * 64 + (QuoteByte(b)[2] - 48) * 8 + (QuoteByte(b)[3] - 48) == b as int
  {
  }

  /** A path of printable bytes without quote and backslash is shown as it is, any other one between quotes
      with its bytes escaped one by one. */
  lemma ShownPathIs(path: Bytes)
    ensures (forall b :: b in path ==> 32 <= b < 127 && b != 34 && b != 92) ==> QuoteGitPath(path) == path
    ensures (exists b :: b in path && !(32 <= b < 127 && b != 34 && b != 92)) ==>
              QuoteGitPath(path) == [34] + QuoteBytes(path) + [34]
  {
  }

  lemma {:induction false} EscapesInOrder(a: Bytes, b: Bytes)
    ensures QuoteBytes(a + b) == QuoteBytes(a) + QuoteBytes(b)
  {
    if a == [] {
      assert a + b == b;
    } else {
      EscapesInOrder(a[1..], b);
      assert (a + b)[1..] == a[1..] + b;
      ConcatAssociates(QuoteByte(a[0]), QuoteBytes(a[1..]), QuoteBytes(b));
    }
  }

  lemma OneEscape(b: byte)
    ensures QuoteBytes([b]) == QuoteByte(b)
  {
    assert [b][1..] == [] && QuoteBytes([]) == [];
  }

  /** The component of a path: its first part, with the second one when that is a directory of migrations or
      schemas, and the whole path when it has one part; anything but letters, digits, ".", "_" and "-"
      becomes "_". */
  ghost predicate ComponentIs(shown: Bytes, component: Bytes) {
    var parts := Split(shown, 47);
    var named :=
      if |parts| < 2 then shown
      else if parts[1] in {Ascii("migration"), Ascii("migrations"), Ascii("schema"), Ascii("schemas")}
      then parts[0] + [45] + parts[1]
      else parts[0];
    && |component| == |named|
    && forall i :: 0 <= i < |named| ==>
         component[i] == if 48 <= named[i] <= 57 || 65 <= named[i] <= 90 || 97 <= named[i] <= 122
                            || named[i] in {45, 46, 95} then named[i] else 95
  }

  lemma ComponentSays(path: Bytes)
    ensures ComponentIs(QuoteGitPath(path), Component(path))
  {
  }

  lemma PrefixesAre()
    ensures HIGH_RISK_PREFIX == Ascii("high-risk-") && CONSISTENCY_PREFIX == Ascii("consistency-")
    ensures LOCKFILES_GROUP == Ascii("consistency-lockfiles") && MODULE_PREFIX == Ascii("module-")
  {
  }

  /** How a path is shown, tagged, grouped and rated, by the first of the three patterns that it matches. */
  lemma ClassSays(path: Bytes, c: Classifier)
    ensures var k := Classify(path, c);
            && k.display == QuoteGitPath(path)
            && (c.highRisk(path) ==>
                  && k.tag == HighRiskTag && k.risk == High && k.reason == PathOrContentRisk
                  && k.groupId == HIGH_RISK_PREFIX + Component(path))
            && (!c.highRisk(path) && c.generated(path) ==>
                  && k.tag == GeneratedLike && k.risk == Consistency && k.reason == GeneratedReason
                  && k.groupId == CONSISTENCY_PREFIX + Component(path))
            && (!c.highRisk(path) && !c.generated(path) && c.lockfile(path) ==>
                  && k.tag == Lockfile && k.risk == Consistency && k.reason == LockfileReason
                  && k.groupId == LOCKFILES_GROUP)
            && (!c.highRisk(path) && !c.generated(path) && !c.lockfile(path) ==>
                  && k.tag == MediumTag && k.risk == Medium && k.reason == ModuleReason
                  && k.groupId == MODULE_PREFIX + Component(path))
  {
  }

  // ---------------------------------------------------------------- units

  /** Unit `i` tells of file `i`. */
  ghost predicate UnitTells(u: Unit, f: ChangedFile, k: PathClass) {
    && u.path == k.display && u.tag == k.tag && u.groupId == k.groupId
    && u.status == f.status && u.additions == f.additions && u.deletions == f.deletions
    && u.diffBytes == f.diffBytes && u.fingerprint == f.fingerprint
  }

  lemma UnitsSay(files: seq<ChangedFile>, classes: Classes)
    ensures |UnitsOf(files, classes)| == |files|
    ensures forall i :: 0 <= i < |files| ==> UnitTells(UnitsOf(files, classes)[i], files[i], classes(files[i].path))
  {
  }

  // ---------------------------------------------------------------- groups

  predicate Belongs(f: ChangedFile, classes: Classes, id: Bytes) {
    classes(f.path).groupId == id
  }

  /** The diff bytes of the files of a group, summed up from the first to the last. */
  function DiffBytesOf(files: seq<ChangedFile>, classes: Classes, id: Bytes): nat {
    if files == [] then 0
    else (if Belongs(files[0], classes, id) then files[0].diffBytes else 0) + DiffBytesOf(files[1..], classes, id)
  }

  /** The shown paths of the files of a group, from the first to the last. */
  function ShownPathsOf(files: seq<ChangedFile>, classes: Classes, id: Bytes): seq<Bytes> {
    if files == [] then []
    else
      (if Belongs(files[0], classes, id) then [classes(files[0].path).display] else [])
      + ShownPathsOf(files[1..], classes, id)
  }

  lemma {:induction false} SumsFromTheFront(files: seq<ChangedFile>, f: ChangedFile, classes: Classes, id: Bytes)
    ensures DiffBytesOf(files + [f], classes, id)
         == DiffBytesOf(files, classes, id) + (if Belongs(f, classes, id) then f.diffBytes else 0)
    ensures ShownPathsOf(files + [f], classes, id)
         == ShownPathsOf(files, classes, id) + (if Belongs(f, classes, id) then [classes(f.path).display] else [])
  {
    if files == [] {
      assert [f][1..] == [];
    } else {
      SumsFromTheFront(files[1..], f, classes, id);
      assert (files + [f])[1..] == files[1..] + [f];
    }
  }

  lemma {:induction false} SumsAgree(files: seq<ChangedFile>, classes: Classes, id: Bytes)
    ensures BytesIn(UnitsOf(files, classes), id) == DiffBytesOf(files, classes, id)
    ensures FilesIn(UnitsOf(files, classes), id) == ShownPathsOf(files, classes, id)
  {
    if files != [] {
      var n := |files| - 1;
      var units := UnitsOf(files, classes);
      SumsAgree(files[..n], classes, id);
      assert units[..n] == UnitsOf(files[..n], classes);
      assert files == files[..n] + [files[n]];
      SumsFromTheFront(files[..n], files[n], classes, id);
    }
  }

  ghost predicate IsFirst(files: seq<ChangedFile>, classes: Classes, id: Bytes, i: int) {
    0 <= i < |files| && Belongs(files[i], classes, id) && forall j :: 0 <= j < i ==> !Belongs(files[j], classes, id)
  }

  lemma {:induction false} FirstClassIs(files: seq<ChangedFile>, classes: Classes, id: Bytes) returns (i: nat)
    requires FirstClass(files, classes, id).Some?
    ensures IsFirst(files, classes, id, i) && FirstClass(files, classes, id).value == classes(files[i].path)
  {
    if Belongs(files[0], classes, id) {
      i := 0;
    } else {
      var rest := files[1..];
      var k := FirstClassIs(rest, classes, id);
      i := k + 1;
      assert forall j :: 0 < j < i ==> files[j] == rest[j - 1];
    }
  }

  /** A group has the sum of the diff bytes of its files, their paths in order, and the risk and reason of the
      first of them. It must be split when the sum is above the hard limit, and otherwise is over target when
      the sum is above the target. */
  ghost predicate GroupTells(files: seq<ChangedFile>, classes: Classes, target: nat, hard: nat, g: Group) {
    var sum := DiffBytesOf(files, classes, g.groupId);
    && g.diffBytes == sum
    && g.files == ShownPathsOf(files, classes, g.groupId)
    && (g.budget == SplitRequired <==> sum > hard)
    && (g.budget == OverTarget <==> target < sum <= hard)
    && (g.budget == WithinTarget <==> sum <= hard && sum <= target)
    && exists i :: IsFirst(files, classes, g.groupId, i)
                   && g.risk == classes(files[i].path).risk && g.reason == classes(files[i].path).reason
  }

  /** The groups tell of the files, have strictly ascending ids, and every file is in one of them. */
  lemma GroupsSay(files: seq<ChangedFile>, classes: Classes, target: nat, hard: nat, groups: seq<Group>)
    requires GroupsOf(files, classes, target, hard, groups)
    ensures forall g :: g in groups ==> GroupTells(files, classes, target, hard, g)
    ensures forall i, j :: 0 <= i < j < |groups| ==> Less(groups[i].groupId, groups[j].groupId)
    ensures forall f :: f in files ==> exists g :: g in groups && Belongs(f, classes, g.groupId)
  {
    forall g | g in groups
      ensures GroupTells(files, classes, target, hard, g)
    {
      assert IsGroupOf(files, classes, target, hard, g);
      SumsAgree(files, classes, g.groupId);
      var i := FirstClassIs(files, classes, g.groupId);
    }
    forall f | f in files
      ensures exists g :: g in groups && Belongs(f, classes, g.groupId)
    {
      var id := classes(f.path).groupId;
      FileHasClass(files, classes, f);
      assert HasGroup(groups, id);
    }
  }

  lemma {:induction false} FileHasClass(files: seq<ChangedFile>, classes: Classes, f: ChangedFile)
    requires f in files
    ensures FirstClass(files, classes, classes(f.path).groupId).Some?
  {
    if f != files[0] {
      assert files == [files[0]] + files[1..];
      FileHasClass(files[1..], classes, f);
    }
  }

  // ---------------------------------------------------------------- work items and plan entries

  /** Splitting comes first, then the reviews of high-risk, consistency and other groups. */
  ghost predicate WorkTells(x: WorkItem, g: Group) {
    && x.groupId == g.groupId
    && (g.budget == SplitRequired ==> x.priority == 1 && x.action == SplitAction)
    && (g.budget != SplitRequired ==>
          && x.action == ReviewAction
          && (g.risk == High ==> x.priority == 2)
          && (g.risk == Consistency ==> x.priority == 3)
          && (g.risk == Medium ==> x.priority == 4))
  }

  /** By priority, and by group id within a priority. */
  ghost predicate InWorkOrder(items: seq<WorkItem>) {
    forall i, j :: 0 <= i < j < |items| ==>
      || items[i].priority < items[j].priority
      || (items[i].priority == items[j].priority && Less(items[i].groupId, items[j].groupId))
  }

  lemma WorkItemTells(g: Group)
    ensures WorkTells(WorkItemOf(g), g)
  {
  }

  lemma AscendingIsInOrder(items: seq<WorkItem>)
    requires AscendingWork(items)
    ensures InWorkOrder(items)
  {
    forall i, j | 0 <= i < j < |items|
      ensures || items[i].priority < items[j].priority
              || (items[i].priority == items[j].priority && Less(items[i].groupId, items[j].groupId))
    {
      assert WorkBefore(items[i], items[j]);
    }
  }

  ghost predicate HasWorkFor(items: seq<WorkItem>, g: Group) {
    exists x :: x in items && WorkTells(x, g)
  }

  ghost predicate IsWorkOf(groups: seq<Group>, x: WorkItem) {
    exists g :: g in groups && WorkTells(x, g)
  }

  lemma WorkForGroup(groups: seq<Group>, items: seq<WorkItem>, g: Group)
    requires WorkOrderOf(groups, items) && g in groups
    ensures HasWorkFor(items, g)
  {
    WorkItemTells(g);
    assert WorkItemOf(g) in items;
  }

  lemma GroupOfWork(groups: seq<Group>, items: seq<WorkItem>, x: WorkItem)
    requires WorkOrderOf(groups, items) && x in items
    ensures IsWorkOf(groups, x)
  {
    var g :| g in groups && x == WorkItemOf(g);
    WorkItemTells(g);
  }

  /** The work order has an item for each group, and no other items, in their order. */
  lemma WorkSays(groups: seq<Group>, items: seq<WorkItem>)
    requires WorkOrderOf(groups, items)
    ensures InWorkOrder(items)
    ensures forall g :: g in groups ==> HasWorkFor(items, g)
    ensures forall x :: x in items ==> IsWorkOf(groups, x)
  {
    AscendingIsInOrder(items);
    forall g | g in groups
      ensures HasWorkFor(items, g)
    {
      WorkForGroup(groups, items, g);
    }
    forall x | x in items
      ensures IsWorkOf(groups, x)
    {
      GroupOfWork(groups, items, x);
    }
  }

  /** An entry of the review plan tells of its group, and requires the files of the group. */
  ghost predicate EntryTells(files: seq<ChangedFile>, classes: Classes, e: PlanEntry, g: Group) {
    && WorkTells(e.item, g)
    && e.risk == g.risk && e.reason == g.reason && e.budget == g.budget && e.diffBytes == g.diffBytes
    && e.files == g.files && e.requiredUnits == ShownPathsOf(files, classes, g.groupId)
  }

  lemma PlanSays(files: seq<ChangedFile>, classes: Classes, groups: seq<Group>, plan: seq<PlanEntry>)
    requires WorkOrderOf(groups, ItemsOf(plan))
    requires forall e :: e in plan <==> exists g :: g in groups && e == EntryOf(UnitsOf(files, classes), g)
    ensures InWorkOrder(ItemsOf(plan))
    ensures forall g :: g in groups ==> exists e :: e in plan && EntryTells(files, classes, e, g)
    ensures forall e :: e in plan ==> exists g :: g in groups && EntryTells(files, classes, e, g)
  {
    var units := UnitsOf(files, classes);
    forall g | g in groups
      ensures EntryOf(units, g) in plan && EntryTells(files, classes, EntryOf(units, g), g)
    {
      SumsAgree(files, classes, g.groupId);
    }
    forall e | e in plan
      ensures exists g :: g in groups && EntryTells(files, classes, e, g)
    {
      var g :| g in groups && e == EntryOf(units, g);
      SumsAgree(files, classes, g.groupId);
      assert EntryTells(files, classes, e, g);
    }
  }

  // ---------------------------------------------------------------- the emitted control plane

  /** The tuple of a group says what the group says, and lists the indexes of its units in ascending order. */
  ghost predicate TupleTells(units: seq<Unit>, t: GroupTuple, g: Group) {
    && t.groupId == g.groupId && t.risk == g.risk && t.reason == g.reason
    && t.diffBytes == g.diffBytes && t.budget == g.budget
    && (forall i :: i in t.unitIndexes <==> 0 <= i < |units| && units[i].groupId == g.groupId)
    && (forall i, j :: 0 <= i < j < |t.unitIndexes| ==> t.unitIndexes[i] < t.unitIndexes[j])
  }

  /** The payload carries the three fingerprints, the units, one tuple for each group in their order, and the
      work order. */
  lemma PayloadSays(scope: AuthoritativeScope)
    ensures var p := Emit(scope);
            && p.authoritative && p.scopeFingerprint == scope.fingerprint
            && p.collectionStart == scope.collectionStart && p.collectionEnd == scope.collectionEnd
            && p.units == scope.units && p.workOrder == scope.workOrder
            && |p.groups| == |scope.groups|
            && forall i :: 0 <= i < |p.groups| ==> TupleTells(scope.units, p.groups[i], scope.groups[i])
  {
    forall i | 0 <= i < |scope.groups|
      ensures TupleTells(scope.units, Emit(scope).groups[i], scope.groups[i])
    {
      IndexesExact(scope.units, scope.groups[i].groupId);
    }
  }
}
