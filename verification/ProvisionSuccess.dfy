/** The exact condition under which a call of `provision_from_cache` in
    `collect-diff-context-cli/src/artifacts/cache.rs` can succeed, for a call on a validated cache entry. */
module ProvisionSuccess {
  import opened ByteStrings
  import opened PackRecords
  import opened FileTrees
  import opened CacheEntry
  import opened ProvisionSteps
  import opened Provision
  import opened ProvisionSafety
  import opened ProvisionAgain

  /** No file lies beneath another. */
  ghost predicate Proper(tree: Tree) {
    forall a, b :: a in tree && b in tree ==> !Beneath(a, b)
  }

  /** The order was made from this cache entry. */
  ghost predicate FromEntry(c: Codec, order: Order, entry: Tree) {
    && OrderOk(c, order) && Proper(entry)
    && ValidateEntry(c, entry, order.record) == Some(order.refreshed)
    && order.manifestSize == |entry[MANIFEST_FILE]|
  }

  ghost predicate NothingAbove(files: Tree, root: Bytes) {
    forall other :: other in files ==> !Beneath(other, root)
  }

  /** What a caller would have to look at in the target. */
  ghost predicate TargetOpen(c: Codec, order: Order, t: Target) {
    var root := PackRoot(order.record);
    && !Occupied(t, root) && NothingAbove(t.files, root)
    && DistributionOk(PlanOf(c, order), t.files)
    && (order.record.role == RepositoryContextProvider ==> Free(t.files, PROFILE_FILE) && Free(t.files, REGISTRY_FILE))
    && Free(t.files, ReceiptPath(order.record.artifactId))
  }

  /** What the receipt has to pass. */
  predicate ReceiptFits(c: Codec, order: Order) {
    var receipt := TargetReceiptOf(c, order);
    c.targetReceiptOk(receipt) && |c.targetJson(receipt)| <= MAX_MANIFEST_BYTES
  }

  /** A call alone on this target can return its receipt. */
  ghost predicate CanSucceed(c: Codec, order: Order, t0: Target) {
    exists t: Target, f: Phase, receipt: TargetReceipt ::
      Reaches(c.hash, PlanOf(c, order), t0, t, Call(f, Success(receipt)))
  }

  // ---------------------------------------------------------------- the files of the pack

  /** What is copied was there to copy. */
  function EntryPath(order: Order, i: nat): Bytes
    requires i < |BoundItems(order)|
  {
    if i == 0 then MANIFEST_FILE else order.refreshed.files[i - 1].path
  }

  lemma BoundItemIs(order: Order, i: nat)
    requires i < |BoundItems(order)|
    ensures BoundItems(order)[i].path == Under(PackRoot(order.record), EntryPath(order, i))
  {
    if i > 0 {
      assert BoundItems(order)[i] == CopiesUnder(PackRoot(order.record), order.refreshed.files)[i - 1];
    }
  }

  lemma BoundItemIsInEntry(c: Codec, order: Order, entry: Tree, i: nat)
    requires FromEntry(c, order, entry) && i < |BoundItems(order)|
    ensures EntryPath(order, i) in entry && Obtainable(c.hash, BoundItems(order)[i])
  {
    var files, content := order.refreshed.files, entry[EntryPath(order, i)];
    if i > 0 {
      assert BoundItems(order)[i] == CopiesUnder(PackRoot(order.record), files)[i - 1];
      assert FileBound(c, entry, files[i - 1]);
    }
    assert Complete(c.hash, BoundItems(order)[i], content);
  }

  lemma EntryPathsDiffer(c: Codec, order: Order, i: nat, j: nat)
    requires OrderOk(c, order) && i < j < |BoundItems(order)|
    ensures EntryPath(order, i) != EntryPath(order, j)
  {
    var files := order.refreshed.files;
    if i == 0 {
      RolePathIsNotTheManifest(files[j - 1]);
    } else {
      AscendingPaths(files, i - 1, j - 1);
      LessIrreflexive(files[i - 1].path);
    }
  }

  lemma BeneathUnder(root: Bytes, a: Bytes, b: Bytes)
    ensures Beneath(Under(root, a), Under(root, b)) <==> Beneath(a, b)
  {
    var x, y := Under(root, a) + [SLASH], Under(root, b);
    assert x == (root + [SLASH]) + (a + [SLASH]) && y == (root + [SLASH]) + b;
    if x <= y {
      StripPrefix(root + [SLASH], a + [SLASH], b);
    }
  }

  lemma BoundItemsAreCompatible(c: Codec, order: Order, entry: Tree, i: nat, j: nat)
    requires FromEntry(c, order, entry) && i < j < |BoundItems(order)|
    ensures Compatible(BoundItems(order)[i].path, BoundItems(order)[j].path)
  {
    var root, a, b := PackRoot(order.record), EntryPath(order, i), EntryPath(order, j);
    BoundItemIs(order, i);
    BoundItemIs(order, j);
    BoundItemIsInEntry(c, order, entry, i);
    BoundItemIsInEntry(c, order, entry, j);
    EntryPathsDiffer(c, order, i, j);
    UnderInjective(root, a, b);
    BeneathUnder(root, a, b);
    BeneathUnder(root, b, a);
  }

  // ---------------------------------------------------------------- items and the target

  lemma DifferAt(a: Bytes, b: Bytes, k: nat)
    requires k < |a| && k < |b| && a[k] != b[k]
    ensures Compatible(a, b)
  {
    assert (a + [SLASH])[k] == a[k] && (b + [SLASH])[k] == b[k];
  }

  lemma BeneathTransitive(a: Bytes, b: Bytes, d: Bytes)
    requires Beneath(a, b) && Beneath(b, d)
    ensures Beneath(a, d)
  {
  }

  /** Two directories of one path are equal, or one is beneath the other. */
  lemma AncestorsAreNested(a: Bytes, b: Bytes, path: Bytes)
    requires Beneath(a, path) && Beneath(b, path)
    ensures a == b || Beneath(a, b) || Beneath(b, a)
  {
    if |a| < |b| {
      assert b == path[..|b|] && a + [SLASH] == path[..|a| + 1];
      assert a + [SLASH] <= b;
    } else if |b| < |a| {
      assert a == path[..|a|] && b + [SLASH] == path[..|b| + 1];
      assert b + [SLASH] <= a;
    } else {
      assert a == path[..|a|] && b == path[..|b|];
    }
  }

  /** Beneath an unoccupied directory a path is free exactly when no file is above the directory. */
  lemma FreeBeneath(t: Target, root: Bytes, path: Bytes)
    requires !Occupied(t, root) && Beneath(root, path)
    ensures Free(t.files, path) <==> NothingAbove(t.files, root)
  {
    forall other | other in t.files && Beneath(other, root)
      ensures !Free(t.files, path)
    {
      BeneathTransitive(other, root, path);
    }
    forall other | other in t.files && !Beneath(other, root)
      ensures !Beneath(path, other) && !Beneath(other, path)
    {
      if Beneath(path, other) {
        BeneathTransitive(root, path, other);
      }
      if Beneath(other, path) {
        AncestorsAreNested(other, root, path);
      }
    }
    assert path !in t.files;
  }

  /** A file beside the others does not make a compatible path less free. */
  lemma FreeBeside(files: Tree, path: Bytes, other: Bytes, bytes: Bytes)
    requires Compatible(path, other)
    ensures Free(files[other := bytes], path) <==> Free(files, path)
  {
    if Free(files[other := bytes], path) {
      forall f | f in files
        ensures !Beneath(path, f) && !Beneath(f, path)
      {
        assert f in files[other := bytes];
      }
      assert path !in files;
    }
  }

  /** Which files an item needs to be absent. */
  ghost predicate Open(c: Codec, order: Order, t: Target, i: nat)
    requires i < |PlanOf(c, order).items|
  {
    Free(t.files, PlanOf(c, order).items[i].path)
  }

  lemma ItemIsOnBranch(c: Codec, order: Order, i: nat)
    requires i < |PlanOf(c, order).items|
    ensures var p := PlanOf(c, order);
            var path := p.items[i].path;
            && |path| > BRANCH && path[BRANCH] != 'd' as int
            && path[BRANCH] == (if i < p.bound then 't' else if i == |p.items| - 1 then 'a' else 'p') as int
            && (i < p.bound ==> p.items[i] == BoundItems(order)[i] && Beneath(p.root, path))
            && (i >= p.bound ==> p.items[i] == LooseItems(c, order)[i - p.bound])
  {
    var p := PlanOf(c, order);
    if i < p.bound {
      BoundItem(c, order, i);
      BoundPaths(order, i);
    } else {
      LooseItem(c, order, i - p.bound);
      LoosePaths(c, order, i - p.bound);
    }
  }

  /** The profile, the registry and the receipt of a provider, or the receipt alone. */
  lemma LooseItemIs(c: Codec, order: Order, k: nat)
    requires k < |LooseItems(c, order)|
    ensures LooseItems(c, order)[k].Written?
    ensures LooseItems(c, order)[k].path ==
            if k == |LooseItems(c, order)| - 1 then ReceiptPath(order.record.artifactId)
            else if k == 0 then PROFILE_FILE else REGISTRY_FILE
    ensures |LooseItems(c, order)| == if order.record.role == RepositoryContextProvider then 3 else 1
  {
  }

  lemma ProfileIsNotRegistry()
    ensures Compatible(PROFILE_FILE, REGISTRY_FILE)
  {
    assert PROFILE_FILE[18] == 'r' as int && REGISTRY_FILE[18] == 'p' as int;
    DifferAt(PROFILE_FILE, REGISTRY_FILE, 18);
  }

  /** Only the profile and the registry lie beside each other. */
  lemma LooseItemsAreCompatible(c: Codec, order: Order, k: nat, l: nat)
    requires k < l < |LooseItems(c, order)| && l != |LooseItems(c, order)| - 1
    ensures Compatible(LooseItems(c, order)[k].path, LooseItems(c, order)[l].path)
  {
    LooseItemIs(c, order, k);
    LooseItemIs(c, order, l);
    ProfileIsNotRegistry();
  }

  lemma ItemsAreCompatible(c: Codec, order: Order, entry: Tree, i: nat, j: nat)
    requires FromEntry(c, order, entry) && i < j < |PlanOf(c, order).items|
    ensures Compatible(PlanOf(c, order).items[i].path, PlanOf(c, order).items[j].path)
  {
    var p := PlanOf(c, order);
    ItemIsOnBranch(c, order, i);
    ItemIsOnBranch(c, order, j);
    if j < p.bound {
      BoundItemsAreCompatible(c, order, entry, i, j);
    } else if p.items[i].path[BRANCH] == p.items[j].path[BRANCH] {
      LooseItemsAreCompatible(c, order, i - p.bound, j - p.bound);
    } else {
      DifferAt(p.items[i].path, p.items[j].path, BRANCH);
    }
  }

  lemma ItemIsObtainable(c: Codec, order: Order, entry: Tree, i: nat)
    requires FromEntry(c, order, entry) && i < |PlanOf(c, order).items|
    ensures Obtainable(c.hash, PlanOf(c, order).items[i])
  {
    var item := PlanOf(c, order).items[i];
    ItemIsOnBranch(c, order, i);
    if i < |BoundItems(order)| {
      BoundItemIsInEntry(c, order, entry, i);
    } else {
      LooseItemIs(c, order, i - |BoundItems(order)|);
      assert Complete(c.hash, item, item.bytes);
    }
  }

  lemma ItemIsOpen(c: Codec, order: Order, entry: Tree, t: Target, i: nat)
    requires FromEntry(c, order, entry) && i < |PlanOf(c, order).items|
    ensures ItemOk(PlanOf(c, order), t.files, i) <==> Open(c, order, t, i)
  {
    var p := PlanOf(c, order);
    ItemIsOnBranch(c, order, i);
    Branches(order);
    DifferAt(p.items[i].path, p.distribution.path, BRANCH);
    FreeBeside(t.files, p.items[i].path, p.distribution.path, p.distribution.bytes);
    forall j | 0 <= j < i
      ensures Compatible(p.items[j].path, p.items[i].path)
    {
      ItemsAreCompatible(c, order, entry, j, i);
    }
  }

  lemma OpenBound(c: Codec, order: Order, t: Target, i: nat)
    requires !Occupied(t, PackRoot(order.record)) && i < |BoundItems(order)|
    ensures Open(c, order, t, i) <==> NothingAbove(t.files, PackRoot(order.record))
  {
    ItemIsOnBranch(c, order, i);
    FreeBeneath(t, PackRoot(order.record), BoundItems(order)[i].path);
  }

  lemma OpenLoose(c: Codec, order: Order, t: Target, k: nat)
    requires k < |LooseItems(c, order)|
    ensures Open(c, order, t, |BoundItems(order)| + k) <==> Free(t.files, LooseItems(c, order)[k].path)
  {
    LooseItem(c, order, k);
  }

  ghost predicate AllOpen(c: Codec, order: Order, t: Target) {
    forall i :: 0 <= i < |PlanOf(c, order).items| ==> Open(c, order, t, i)
  }

  ghost predicate LooseOpen(c: Codec, order: Order, t: Target) {
    forall k :: 0 <= k < |LooseItems(c, order)| ==> Free(t.files, LooseItems(c, order)[k].path)
  }

  lemma OpenItems(c: Codec, order: Order, t: Target)
    requires !Occupied(t, PackRoot(order.record))
    ensures AllOpen(c, order, t) <==> NothingAbove(t.files, PackRoot(order.record)) && LooseOpen(c, order, t)
  {
    var n := |BoundItems(order)|;
    OpenBound(c, order, t, 0);
    forall k | 0 <= k < |LooseItems(c, order)|
      ensures Open(c, order, t, n + k) <==> Free(t.files, LooseItems(c, order)[k].path)
    {
      OpenLoose(c, order, t, k);
    }
    forall i | 0 <= i < |PlanOf(c, order).items|
      ensures NothingAbove(t.files, PackRoot(order.record)) && LooseOpen(c, order, t) ==> Open(c, order, t, i)
    {
      if i < n {
        OpenBound(c, order, t, i);
      } else {
        OpenLoose(c, order, t, i - n);
      }
    }
  }

  lemma LooseIsOpen(c: Codec, order: Order, t: Target)
    ensures LooseOpen(c, order, t) <==>
            && (order.record.role == RepositoryContextProvider ==>
                  Free(t.files, PROFILE_FILE) && Free(t.files, REGISTRY_FILE))
            && Free(t.files, ReceiptPath(order.record.artifactId))
  {
    var last := |LooseItems(c, order)| - 1;
    forall k | 0 <= k <= last
      ensures LooseItems(c, order)[k].path ==
              if k == last then ReceiptPath(order.record.artifactId)
              else if k == 0 then PROFILE_FILE else REGISTRY_FILE
      ensures last == if order.record.role == RepositoryContextProvider then 2 else 0
    {
      LooseItemIs(c, order, k);
    }
    assert LooseOpen(c, order, t) ==> Free(t.files, LooseItems(c, order)[last].path);
    if order.record.role == RepositoryContextProvider {
      assert LooseOpen(c, order, t) ==> Free(t.files, LooseItems(c, order)[0].path);
      assert LooseOpen(c, order, t) ==> Free(t.files, LooseItems(c, order)[1].path);
    }
  }

  lemma ItemsAreOk(c: Codec, order: Order, entry: Tree, t: Target)
    requires FromEntry(c, order, entry)
    ensures (forall i :: 0 <= i < |PlanOf(c, order).items| ==>
               ItemOk(PlanOf(c, order), t.files, i) && Obtainable(c.hash, PlanOf(c, order).items[i]))
            <==> AllOpen(c, order, t)
  {
    forall i | 0 <= i < |PlanOf(c, order).items|
      ensures ItemOk(PlanOf(c, order), t.files, i) <==> Open(c, order, t, i)
      ensures Obtainable(c.hash, PlanOf(c, order).items[i])
    {
      ItemIsOpen(c, order, entry, t, i);
      ItemIsObtainable(c, order, entry, i);
    }
  }

  lemma ReadyExactly(c: Codec, order: Order, entry: Tree, t: Target)
    requires FromEntry(c, order, entry)
    ensures Ready(c.hash, PlanOf(c, order), t)
            <==> order.independent && ReceiptFits(c, order) && TargetOpen(c, order, t)
  {
    ReceiptIsWellFormed(c, order);
    ItemsAreOk(c, order, entry, t);
    if !Occupied(t, PackRoot(order.record)) {
      OpenItems(c, order, t);
      LooseIsOpen(c, order, t);
    }
  }

  // ---------------------------------------------------------------- success

  ghost predicate SuccessIsFinished(p: Plan<TargetReceipt>, s: System<TargetReceipt>) {
    |s.calls| == 1 && (s.calls[0].outcome.Success? ==> Finished(p, s.calls[0].phase))
  }

  lemma {:induction false} SucceededIsFinished(
    hash: Bytes -> Bytes, p: Plan<TargetReceipt>, run: seq<System<TargetReceipt>>, n: nat)
    requires IsRun(hash, [p], run) && n < |run|
    ensures SuccessIsFinished(p, run[n])
  {
    if n > 0 {
      SucceededIsFinished(hash, p, run, n - 1);
      assert StepAt(hash, [p], run, n);
      var i: nat :| StepOf(hash, [p], run[n - 1], run[n], i);
    }
  }

  lemma SuccessNeedsFinish(c: Codec, order: Order, t0: Target)
    requires CanSucceed(c, order, t0)
    ensures Ready(c.hash, PlanOf(c, order), t0)
  {
    var p := PlanOf(c, order);
    var t: Target, f: Phase, receipt: TargetReceipt :| Reaches(c.hash, p, t0, t, Call(f, Success(receipt)));
    var run: seq<System<TargetReceipt>> :| SoloRun(c.hash, p, t0, run) && EndsAt(run, t, Call(f, Success(receipt)));
    SucceededIsFinished(c.hash, p, run, |run| - 1);
    RunIsKnown(c.hash, p, t0, run, |run| - 1);
  }

  lemma OnePlan(c: Codec, order: Order)
    ensures PlansOf(c, [order]) == [PlanOf(c, order)]
  {
  }

  lemma FinishedPasses(c: Codec, order: Order, run: seq<System<TargetReceipt>>, t: Target, a: Call<TargetReceipt>)
    requires Faithful(c) && Injective(c.hash) && OrderOk(c, order)
    requires IsRun(c.hash, [PlanOf(c, order)], run) && EndsAt(run, t, a) && Finished(PlanOf(c, order), a.phase)
    ensures PlanOf(c, order).verify(t.files) == Some(TargetReceiptOf(c, order))
  {
    OnePlan(c, order);
    FinishedVerifies(c, [order], run, |run| - 1, 0);
  }

  lemma FinishIsSuccess(c: Codec, order: Order, t0: Target)
    requires Faithful(c) && Injective(c.hash) && OrderOk(c, order)
    requires CanFinish(c.hash, PlanOf(c, order), t0)
    ensures CanSucceed(c, order, t0)
  {
    var p, receipt := PlanOf(c, order), TargetReceiptOf(c, order);
    var f := Installing(Creating(|p.items|));
    var t: Target :| Reaches(c.hash, p, t0, t, Call(f, Running));
    var run: seq<System<TargetReceipt>> :| SoloRun(c.hash, p, t0, run) && EndsAt(run, t, Call(f, Running));
    FinishedPasses(c, order, run, t, Call(f, Running));
    Extends(c.hash, p, t0, t, Call(f, Running), t, Call(f, Success(receipt)));
  }

  /** A call on a validated cache entry can succeed if and only if target and cache are independent, the
      receipt passes its field checks and its size limit, and the target is open: no pack directory, the
      same distribution manifest or none, and nothing where the call puts a file. */
  lemma SucceedsExactly(c: Codec, order: Order, entry: Tree, t: Target)
    requires Faithful(c) && Injective(c.hash) && FromEntry(c, order, entry)
    ensures CanSucceed(c, order, t) <==> order.independent && ReceiptFits(c, order) && TargetOpen(c, order, t)
  {
    var p := PlanOf(c, order);
    ReadyExactly(c, order, entry, t);
    CanFinishExactly(c.hash, p, t);
    if CanSucceed(c, order, t) {
      SuccessNeedsFinish(c, order, t);
    }
    if Ready(c.hash, p, t) {
      FinishIsSuccess(c, order, t);
    }
  }

  /** A call that succeeds leaves the target as it was, with the distribution manifest, the files of the pack,
      for a provider its profile and its registry, and the receipt; these have the bytes that they should. */
  lemma SuccessfulTargetIs(c: Codec, order: Order, t0: Target, run: seq<System<TargetReceipt>>)
    requires OrderOk(c, order) && SoloRun(c.hash, PlanOf(c, order), t0, run)
    requires var last := run[|run| - 1]; |last.calls| == 1 && last.calls[0].outcome.Success?
    ensures var files := run[|run| - 1].target.files;
            && StillThere(t0.files, files)
            && files.Keys == t0.files.Keys + {DISTRIBUTION_FILE}
                             + FirstPaths(PlanOf(c, order), |PlanOf(c, order).items|)
            && files[DISTRIBUTION_FILE] == c.distributionJson(order.distribution)
            && (order.record.role == RepositoryContextProvider ==>
                  && PROFILE_FILE in files && files[PROFILE_FILE] == order.profile
                  && REGISTRY_FILE in files && files[REGISTRY_FILE] == order.registry)
            && ReceiptPath(order.record.artifactId) in files
            && files[ReceiptPath(order.record.artifactId)] == c.targetJson(TargetReceiptOf(c, order))
  {
    var p, n := PlanOf(c, order), |run| - 1;
    SucceededIsFinished(c.hash, p, run, n);
    OnePlan(c, order);
    PlansAreOk(c, [order]);
    assert PlanOk([p][0]) && RootsApart([p][0], [p][0]);
    FinishedTargetIs(c.hash, p, t0, run, n);
    LooseContents(c, order, run[n].target.files);
  }

  lemma LooseContents(c: Codec, order: Order, files: Tree)
    requires forall i :: 0 <= i < |PlanOf(c, order).items| ==>
               var item := PlanOf(c, order).items[i]; item.path in files && Complete(c.hash, item, files[item.path])
    ensures order.record.role == RepositoryContextProvider ==>
              && PROFILE_FILE in files && files[PROFILE_FILE] == order.profile
              && REGISTRY_FILE in files && files[REGISTRY_FILE] == order.registry
    ensures ReceiptPath(order.record.artifactId) in files
    ensures files[ReceiptPath(order.record.artifactId)] == c.targetJson(TargetReceiptOf(c, order))
  {
    var loose, n := LooseItems(c, order), |BoundItems(order)|;
    forall k | 0 <= k < |loose|
      ensures loose[k].path in files && Complete(c.hash, loose[k], files[loose[k].path])
    {
      LooseItem(c, order, k);
      assert PlanOf(c, order).items[n + k] == loose[k];
    }
    assert loose[|loose| - 1]
        == Written(ReceiptPath(order.record.artifactId), c.targetJson(TargetReceiptOf(c, order)));
    if order.record.role == RepositoryContextProvider {
      assert loose[0] == Written(PROFILE_FILE, order.profile) && loose[1] == Written(REGISTRY_FILE, order.registry);
    }
  }

  /** After a call that could have succeeded, the same call can succeed again if and only if the first
      made no pack directory and left no distribution manifest but the complete one. */
  lemma RepeatsExactly(c: Codec, order: Order, entry: Tree, t0: Target, run: seq<System<TargetReceipt>>, n: nat)
    requires Faithful(c) && Injective(c.hash) && FromEntry(c, order, entry) && CanSucceed(c, order, t0)
    requires SoloRun(c.hash, PlanOf(c, order), t0, run) && n < |run|
    ensures CanSucceed(c, order, run[n].target) <==> LeftClean(PlanOf(c, order), run[n].target)
  {
    var p, t := PlanOf(c, order), run[n].target;
    Branches(order);
    OtherBranch(p.root, p.distribution.path);
    SuccessNeedsFinish(c, order, t0);
    RepeatableExactly(c.hash, p, t0, run, n);
    CanFinishExactly(c.hash, p, t);
    if CanSucceed(c, order, t) {
      SuccessNeedsFinish(c, order, t);
    }
    if LeftClean(p, t) {
      FinishIsSuccess(c, order, t);
    }
  }

  /** A call can stop with an empty distribution manifest, before it makes its pack directory. */
  lemma CallStopsInTheManifest(c: Codec, order: Order, t0: Target)
    requires order.independent && TargetOpen(c, order, t0) && DISTRIBUTION_FILE !in t0.files
    ensures var left := t0.(files := t0.files[DISTRIBUTION_FILE := []]);
            Reaches(c.hash, PlanOf(c, order), t0, left, Call(Retaining(Filling(0)), Stopped))
  {
    StopsInTheManifest(c.hash, PlanOf(c, order), t0);
  }

  /** The content does not reach as far as the distribution manifest of any order. */
  ghost predicate PartialFor(c: Codec, orders: seq<Order>, content: Bytes) {
    forall i :: 0 <= i < |orders| ==> !(c.distributionJson(orders[i].distribution) <= content)
  }

  lemma OrdersShareTheManifest(c: Codec, orders: seq<Order>)
    ensures OneManifest(PlansOf(c, orders), DISTRIBUTION_FILE)
  {
    forall i | 0 <= i < |orders|
      ensures var p := PlanOf(c, orders[i]); p.items[p.bound].path != DISTRIBUTION_FILE
    {
      Branches(orders[i]);
      ItemIsOnBranch(c, orders[i], PlanOf(c, orders[i]).bound);
    }
  }

  /** From then on, in any run of any number of calls for any packs, no call gets past the manifest, and
      the target never changes: none can return a receipt. */
  lemma CrashBlocksEveryPack(
    c: Codec, orders: seq<Order>, run: seq<System<TargetReceipt>>, m: nat, n: nat, i: nat)
    requires OrdersOk(c, orders) && IsRun(c.hash, PlansOf(c, orders), run) && m <= n < |run|
    requires i < |run[m].calls| && run[m].calls[i] == Call(Retaining(Filling(0)), Stopped)
    requires DISTRIBUTION_FILE in run[m].target.files
    requires PartialFor(c, orders, run[m].target.files[DISTRIBUTION_FILE])
    ensures Blocked(i, run[n]) && run[n].target == run[m].target
  {
    PlansAreOk(c, orders);
    OrdersShareTheManifest(c, orders);
    PartialManifestIsFinal(c.hash, PlansOf(c, orders), DISTRIBUTION_FILE, run, m, n, i);
  }
}
