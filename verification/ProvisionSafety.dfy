/** What provisioning guarantees, for the program's own plans: at every step and after every crash a
    complete receipt binds files that are all in place, and a call that wrote its last file passes the
    verification. */
module ProvisionSafety {
  import opened ByteStrings
  import opened PackRecords
  import opened Sorting
  import opened ManifestRules
  import opened FileTrees
  import opened CacheEntry
  import opened ProvisionSteps
  import opened Provision

  // ---------------------------------------------------------------- paths

  /** Where the names of the directories below "runtime/" begin. */
  const BRANCH: nat := 8

  lemma Branches(order: Order)
    ensures |PackRoot(order.record)| > BRANCH && PackRoot(order.record)[BRANCH] == 't' as int
    ensures DISTRIBUTION_FILE[BRANCH] == 'd' as int
    ensures PROFILE_FILE[BRANCH] == 'p' as int && REGISTRY_FILE[BRANCH] == 'p' as int
    ensures RECEIPTS[BRANCH] == 'a' as int
  {
    assert PackRoot(order.record)[BRANCH] == THIRD_PARTY[BRANCH];
  }

  lemma OtherBranch(dir: Bytes, path: Bytes)
    requires |dir| > BRANCH && |path| > BRANCH && dir[BRANCH] != path[BRANCH]
    ensures !Beneath(dir, path)
  {
    assert (dir + [SLASH])[BRANCH] == dir[BRANCH];
  }

  lemma SameHead(a: Bytes, x: Bytes, b: Bytes, y: Bytes)
    requires SLASH !in a && SLASH !in b && a + [SLASH] + x <= b + [SLASH] + y
    ensures a == b && x <= y
  {
    var s, t := a + [SLASH] + x, b + [SLASH] + y;
    assert s[..|a|] == a && t[..|a|] == a && t[..|b|] == b;
    assert t[|a|] == s[|a|] == SLASH && t[|b|] == SLASH;
    IndexOfFirst(t, SLASH, |a|);
    IndexOfFirst(t, SLASH, |b|);
    assert x == s[|a| + 1..] && y == t[|a| + 1..];
  }

  lemma StripPrefix(p: Bytes, x: Bytes, y: Bytes)
    requires p + x <= p + y
    ensures x <= y
  {
    assert (p + x)[|p|..] == x && (p + y)[|p|..] == y;
  }

  /** Pack directories do not nest. */
  lemma RootsDoNotNest(r: PackRecord, s: PackRecord, path: Bytes)
    requires Identifier(r.artifactId) && TargetComponent(r.packVersion)
    requires Identifier(s.artifactId) && TargetComponent(s.packVersion)
    requires Beneath(PackRoot(r), Under(PackRoot(s), path))
    ensures PackRoot(r) == PackRoot(s)
  {
    var x, y := r.packVersion + [SLASH], s.packVersion + [SLASH] + path;
    assert PackRoot(r) + [SLASH] == THIRD_PARTY + (r.artifactId + [SLASH] + x);
    assert Under(PackRoot(s), path) == THIRD_PARTY + (s.artifactId + [SLASH] + y);
    StripPrefix(THIRD_PARTY, r.artifactId + [SLASH] + x, s.artifactId + [SLASH] + y);
    SameHead(r.artifactId, x, s.artifactId, y);
    assert r.packVersion + [SLASH] + [] == x;
    SameHead(r.packVersion, [], s.packVersion, path);
  }

  lemma BoundPaths(order: Order, i: nat)
    requires i < |BoundItems(order)|
    ensures var path := BoundItems(order)[i].path;
            && (exists f :: path == Under(PackRoot(order.record), f))
            && |path| > BRANCH && path[BRANCH] == 't' as int
  {
    var root := PackRoot(order.record);
    Branches(order);
    var f := if i == 0 then MANIFEST_FILE else order.refreshed.files[i - 1].path;
    assert BoundItems(order)[i].path == Under(root, f);
    assert Under(root, f)[BRANCH] == root[BRANCH];
  }

  lemma LoosePaths(c: Codec, order: Order, i: nat)
    requires i < |LooseItems(c, order)|
    ensures var path := LooseItems(c, order)[i].path;
            && |path| > BRANCH
            && path[BRANCH] == (if i == |LooseItems(c, order)| - 1 then 'a' as int else 'p' as int)
  {
    Branches(order);
    if i == |LooseItems(c, order)| - 1 {
      assert LooseItems(c, order)[i].path == ReceiptPath(order.record.artifactId);
    } else {
      assert LooseItems(c, order)[i] == ProviderItems(order)[i];
    }
  }

  lemma LooseItem(c: Codec, order: Order, i: nat)
    requires i < |LooseItems(c, order)|
    ensures PlanOf(c, order).items[|BoundItems(order)| + i] == LooseItems(c, order)[i]
  {
  }

  lemma BoundItem(c: Codec, order: Order, i: nat)
    requires i < |BoundItems(order)|
    ensures PlanOf(c, order).items[i] == BoundItems(order)[i]
  {
  }

  lemma OnePlanOk(c: Codec, order: Order)
    ensures PlanOk(PlanOf(c, order))
  {
    var p := PlanOf(c, order);
    Branches(order);
    forall i | 0 <= i < |p.items| - 1
      ensures !Beneath(RECEIPTS, p.items[i].path)
      ensures i < p.bound ==> Beneath(p.root, p.items[i].path)
    {
      if i < p.bound {
        BoundItem(c, order, i);
        BoundPaths(order, i);
      } else {
        LooseItem(c, order, i - p.bound);
        LoosePaths(c, order, i - p.bound);
      }
      OtherBranch(RECEIPTS, p.items[i].path);
    }
    OtherBranch(RECEIPTS, p.distribution.path);
  }

  lemma TwoPlansApart(c: Codec, a: Order, b: Order)
    requires Identifier(a.record.artifactId) && TargetComponent(a.record.packVersion)
    requires Identifier(b.record.artifactId) && TargetComponent(b.record.packVersion)
    requires PlanOk(PlanOf(c, a)) && PlanOk(PlanOf(c, b))
    ensures RootsApart(PlanOf(c, a), PlanOf(c, b))
  {
    var p, q := PlanOf(c, a), PlanOf(c, b);
    Branches(a);
    Branches(b);
    OtherBranch(q.root, p.distribution.path);
    forall i | p.bound <= i < |p.items|
      ensures !Beneath(q.root, p.items[i].path)
    {
      LooseItem(c, a, i - p.bound);
      LoosePaths(c, a, i - p.bound);
      OtherBranch(q.root, p.items[i].path);
    }
    forall i | 0 <= i < p.bound && Beneath(q.root, p.items[i].path)
      ensures p.items[0].path == q.items[0].path
    {
      BoundItem(c, a, i);
      BoundItem(c, a, 0);
      BoundItem(c, b, 0);
      BoundPaths(a, i);
      var f :| p.items[i].path == Under(PackRoot(a.record), f);
      RootsDoNotNest(b.record, a.record, f);
    }
  }

  ghost predicate OrdersOk(c: Codec, orders: seq<Order>) {
    forall i :: 0 <= i < |orders| ==> OrderOk(c, orders[i])
  }

  lemma PlansAreOk(c: Codec, orders: seq<Order>)
    requires OrdersOk(c, orders)
    ensures PlansOk(PlansOf(c, orders))
  {
    forall i | 0 <= i < |orders|
      ensures PlanOk(PlanOf(c, orders[i]))
    {
      OnePlanOk(c, orders[i]);
    }
    forall i, j | 0 <= i < |orders| && 0 <= j < |orders|
      ensures RootsApart(PlanOf(c, orders[i]), PlanOf(c, orders[j]))
    {
      TwoPlansApart(c, orders[i], orders[j]);
    }
  }

  // ---------------------------------------------------------------- the bindings of a receipt

  lemma {:induction false} BindingsWhereAre(root: Bytes, files: seq<PackFile>, licenses: bool, b: FileBinding)
    ensures b in BindingsWhere(root, files, licenses) <==>
            exists i :: 0 <= i < |files| && (files[i].role == License) == licenses && b == BindingUnder(root, files[i])
  {
    if files != [] {
      var rest := files[1..];
      BindingsWhereAre(root, rest, licenses, b);
      assert forall i :: 0 <= i < |rest| ==> files[i + 1] == rest[i];
      assert forall i :: 0 < i < |files| ==> files[i] == rest[i - 1];
    }
  }

  lemma SortKeepsBindings(bindings: seq<FileBinding>, b: FileBinding)
    ensures b in SortBindings(bindings) <==> b in bindings
  {
    assert b in SortBindings(bindings) <==> b in multiset(SortBindings(bindings));
  }

  /** A receipt binds the pack manifest and every file of the pack, and nothing else. */
  lemma ReceiptBinds(c: Codec, order: Order, b: FileBinding)
    ensures var receipt := TargetReceiptOf(c, order);
            b in receipt.installedFiles || b in receipt.licenseFiles <==>
            exists i :: 0 <= i < |BoundItems(order)| && BoundItems(order)[i] == Copied(b.path, b.size, b.sha256)
  {
    var root, files := PackRoot(order.record), order.refreshed.files;
    var first := FileBinding(Under(root, MANIFEST_FILE), order.manifestSize, order.record.packManifestSha256);
    SortKeepsBindings([first] + BindingsWhere(root, files, false), b);
    SortKeepsBindings(BindingsWhere(root, files, true), b);
    BindingsWhereAre(root, files, false, b);
    BindingsWhereAre(root, files, true, b);
    BoundItemsAre(order, first, b);
  }

  lemma BoundItemsAre(order: Order, first: FileBinding, b: FileBinding)
    requires first == FileBinding(
               Under(PackRoot(order.record), MANIFEST_FILE), order.manifestSize, order.record.packManifestSha256)
    ensures (exists i :: 0 <= i < |BoundItems(order)| && BoundItems(order)[i] == Copied(b.path, b.size, b.sha256)) <==>
            || b == first
            || exists i :: 0 <= i < |order.refreshed.files| &&
                 b == BindingUnder(PackRoot(order.record), order.refreshed.files[i])
  {
    var root, files, items := PackRoot(order.record), order.refreshed.files, BoundItems(order);
    assert items[0] == Copied(first.path, first.size, first.sha256);
    if i :| 0 < i < |items| && items[i] == Copied(b.path, b.size, b.sha256) {
      assert items[i] == CopiesUnder(root, files)[i - 1];
      assert b == BindingUnder(root, files[i - 1]);
    }
    if i :| 0 <= i < |files| && b == BindingUnder(root, files[i]) {
      assert items[i + 1] == CopiesUnder(root, files)[i];
    }
  }

  lemma BoundFilesHold(c: Codec, order: Order, files: Tree)
    requires Bound(c.hash, PlanOf(c, order), files)
    ensures BindingsHold(c, files, TargetReceiptOf(c, order).installedFiles)
    ensures BindingsHold(c, files, TargetReceiptOf(c, order).licenseFiles)
  {
    var receipt, p := TargetReceiptOf(c, order), PlanOf(c, order);
    forall b | b in receipt.installedFiles || b in receipt.licenseFiles
      ensures BindingHolds(c, files, b)
    {
      ReceiptBinds(c, order, b);
      var i :| 0 <= i < |BoundItems(order)| && BoundItems(order)[i] == Copied(b.path, b.size, b.sha256);
      BoundItem(c, order, i);
      assert Complete(c.hash, p.items[i], files[p.items[i].path]);
    }
  }

  /** What holds a beginning of a receipt, and reads as one, is that receipt. */
  lemma FromItsPlan(c: Codec, order: Order, files: Tree, r: TargetReceipt)
    requires Faithful(c) && Bound(c.hash, PlanOf(c, order), files)
    requires MayHold(ReceiptItem(PlanOf(c, order)), c.targetJson(r))
    ensures r == TargetReceiptOf(c, order)
    ensures BindingsHold(c, files, r.installedFiles) && BindingsHold(c, files, r.licenseFiles)
  {
    LooseItem(c, order, |LooseItems(c, order)| - 1);
    BoundFilesHold(c, order, files);
  }

  lemma NewReceiptMeansInstalled(
    c: Codec, orders: seq<Order>, run: seq<System<TargetReceipt>>, n: nat, r: TargetReceipt)
    requires Faithful(c) && OrdersOk(c, orders) && IsRun(c.hash, PlansOf(c, orders), run) && n < |run|
    requires ReceiptPath(r.artifactId) !in run[0].target.files
    requires ReceiptPath(r.artifactId) in run[n].target.files
    requires run[n].target.files[ReceiptPath(r.artifactId)] == c.targetJson(r)
    ensures BindingsHold(c, run[n].target.files, r.installedFiles)
    ensures BindingsHold(c, run[n].target.files, r.licenseFiles)
    ensures exists i :: 0 <= i < |orders| && r == TargetReceiptOf(c, orders[i])
  {
    var plans, files, path := PlansOf(c, orders), run[n].target.files, ReceiptPath(r.artifactId);
    PlansAreOk(c, orders);
    ReceiptComesLast(c.hash, plans, run, n, path);
    var i :| 0 <= i < |plans| && path == ReceiptItem(plans[i]).path && MayHold(ReceiptItem(plans[i]), files[path])
             && plans[i].receiptOk && Bound(c.hash, plans[i], files);
    FromItsPlan(c, orders[i], files, r);
  }

  lemma OldBindingsHold(
    c: Codec, orders: seq<Order>, run: seq<System<TargetReceipt>>, n: nat, bindings: seq<FileBinding>)
    requires OrdersOk(c, orders) && IsRun(c.hash, PlansOf(c, orders), run) && n < |run|
    requires BindingsHold(c, run[0].target.files, bindings)
    ensures BindingsHold(c, run[n].target.files, bindings)
  {
    PlansAreOk(c, orders);
    forall b | b in bindings
      ensures BindingHolds(c, run[n].target.files, b)
    {
      OldFilesStay(c.hash, PlansOf(c, orders), run, n, b.path);
    }
  }

  /** At every step, and after every crash: when a receipt can be read from the target, every file that
      it binds is in place with the bound size and digest, for receipts of this run and for those
      that were there before it and held then. */
  lemma ReceiptMeansInstalled(c: Codec, orders: seq<Order>, run: seq<System<TargetReceipt>>, n: nat, r: TargetReceipt)
    requires Faithful(c) && OrdersOk(c, orders) && IsRun(c.hash, PlansOf(c, orders), run) && n < |run|
    requires ReceiptPath(r.artifactId) in run[n].target.files
    requires run[n].target.files[ReceiptPath(r.artifactId)] == c.targetJson(r)
    requires ReceiptPath(r.artifactId) in run[0].target.files ==>
               && BindingsHold(c, run[0].target.files, r.installedFiles)
               && BindingsHold(c, run[0].target.files, r.licenseFiles)
    ensures BindingsHold(c, run[n].target.files, r.installedFiles)
    ensures BindingsHold(c, run[n].target.files, r.licenseFiles)
    ensures ReceiptPath(r.artifactId) !in run[0].target.files ==>
              exists i :: 0 <= i < |orders| && r == TargetReceiptOf(c, orders[i])
  {
    if ReceiptPath(r.artifactId) in run[0].target.files {
      OldBindingsHold(c, orders, run, n, r.installedFiles);
      OldBindingsHold(c, orders, run, n, r.licenseFiles);
    } else {
      NewReceiptMeansInstalled(c, orders, run, n, r);
    }
  }

  // ---------------------------------------------------------------- a finished call verifies

  lemma FinishedFiles(c: Codec, order: Order, files: Tree)
    requires InPlace(c.hash, PlanOf(c, order).items, Creating(|PlanOf(c, order).items|), files)
    ensures Bound(c.hash, PlanOf(c, order), files)
    ensures ReceiptPath(order.record.artifactId) in files
    ensures files[ReceiptPath(order.record.artifactId)] == c.targetJson(TargetReceiptOf(c, order))
  {
    var last := |LooseItems(c, order)| - 1;
    LooseItem(c, order, last);
    assert LooseItems(c, order)[last]
        == Written(ReceiptPath(order.record.artifactId), c.targetJson(TargetReceiptOf(c, order)));
  }

  /** The copied manifest is the one that the cache entry was validated with: the digest decides. */
  lemma ManifestReads(c: Codec, order: Order, files: Tree)
    requires Faithful(c) && Injective(c.hash) && OrderOk(c, order)
    requires Bound(c.hash, PlanOf(c, order), files)
    ensures var path := Under(PackRoot(order.record), MANIFEST_FILE);
            && path in files && |files[path]| == order.manifestSize
            && ReadManifest(c, files, path, order.record.packManifestSha256) == Some(order.manifest)
  {
    var path := Under(PackRoot(order.record), MANIFEST_FILE);
    BoundItem(c, order, 0);
    assert BoundItems(order)[0] == Copied(path, order.manifestSize, order.record.packManifestSha256);
    assert Complete(c.hash, BoundItems(order)[0], files[path]);
    DigestDecides(c, order.manifest, files, path);
  }

  lemma DigestDecides(c: Codec, m: PackManifest, files: Tree, path: Bytes)
    requires Faithful(c) && Injective(c.hash) && ManifestOk(c, m)
    requires path in files && c.hash(files[path]) == c.hash(c.manifestJson(m))
    ensures ReadManifest(c, files, path, c.hash(c.manifestJson(m))) == Some(m)
  {
    assert files[path] == c.manifestJson(m);
  }

  lemma {:induction false} FewFiles(root: Bytes, files: seq<PackFile>)
    ensures |(set i | 0 <= i < |files| :: Under(root, files[i].path))| <= |files|
  {
    var paths := set i | 0 <= i < |files| :: Under(root, files[i].path);
    if files != [] {
      var rest := files[..|files| - 1];
      FewFiles(root, rest);
      assert paths == (set i | 0 <= i < |rest| :: Under(root, rest[i].path)) + {Under(root, files[|files| - 1].path)};
    }
  }

  lemma ExpectedPaths(order: Order, path: Bytes)
    ensures path in ExpectedInventory(PackRoot(order.record), order.refreshed.files) <==>
            exists i :: 0 <= i < |BoundItems(order)| && path == BoundItems(order)[i].path
  {
    var root, files, items := PackRoot(order.record), order.refreshed.files, BoundItems(order);
    assert items[0].path == Under(root, MANIFEST_FILE);
    if i :| 0 < i < |items| && path == items[i].path {
      assert items[i] == CopiesUnder(root, files)[i - 1];
      assert path == Under(root, files[i - 1].path);
    }
    if i :| 0 <= i < |files| && path == Under(root, files[i].path) {
      assert items[i + 1] == CopiesUnder(root, files)[i];
    }
  }

  /** The pack directory holds the bound files and nothing else; its limit is never reached. */
  lemma InventoryIsExpected(c: Codec, order: Order, files: Tree)
    requires OrderOk(c, order) && PlanOk(PlanOf(c, order)) && RootsApart(PlanOf(c, order), PlanOf(c, order))
    requires Bound(c.hash, PlanOf(c, order), files)
    requires forall path :: path in files && Beneath(PackRoot(order.record), path) ==>
               exists k :: 0 <= k < |PlanOf(c, order).items| && path == PlanOf(c, order).items[k].path
    ensures Inventory(files, PackRoot(order.record)) == ExpectedInventory(PackRoot(order.record), order.refreshed.files)
    ensures |Inventory(files, PackRoot(order.record))| <= MAX_CACHE_FILES
  {
    var p, root := PlanOf(c, order), PackRoot(order.record);
    forall path
      ensures path in Inventory(files, root) <==> path in ExpectedInventory(root, order.refreshed.files)
    {
      ExpectedPaths(order, path);
      if path in files && Beneath(root, path) {
        var k :| 0 <= k < |p.items| && path == p.items[k].path;
        assert k < p.bound;
        BoundItem(c, order, k);
      }
      if i :| 0 <= i < |BoundItems(order)| && path == BoundItems(order)[i].path {
        BoundItem(c, order, i);
        assert Complete(c.hash, p.items[i], files[p.items[i].path]);
      }
    }
    FewFiles(root, order.refreshed.files);
  }

  lemma ReceiptReads(c: Codec, order: Order, files: Tree)
    requires Faithful(c) && TargetReceiptOk(c, TargetReceiptOf(c, order))
    requires ReceiptPath(order.record.artifactId) in files
    requires files[ReceiptPath(order.record.artifactId)] == c.targetJson(TargetReceiptOf(c, order))
    ensures ReadTargetReceipt(c, files, order.record.artifactId) == Some(TargetReceiptOf(c, order))
  {
    assert TargetReceiptOf(c, order).artifactId == order.record.artifactId;
  }

  lemma SelectedVerifies(c: Codec, order: Order, files: Tree)
    requires Faithful(c) && Injective(c.hash) && OrderOk(c, order)
    requires Bound(c.hash, PlanOf(c, order), files)
    requires var root := PackRoot(order.record);
             && Inventory(files, root) == ExpectedInventory(root, order.refreshed.files)
             && |Inventory(files, root)| <= MAX_CACHE_FILES
    ensures VerifySelected(c, files, TargetReceiptOf(c, order), order.distribution, order.record)
         == Some(TargetReceiptOf(c, order))
  {
    ManifestReads(c, order, files);
    BoundFilesHold(c, order, files);
  }

  /** A call that wrote its last file verifies: the receipt built from the cache is the one that the
      verifier recomputes from the pack manifest on disk, whatever other calls did meanwhile. */
  lemma FinishedVerifies(c: Codec, orders: seq<Order>, run: seq<System<TargetReceipt>>, n: nat, i: nat)
    requires Faithful(c) && Injective(c.hash) && OrdersOk(c, orders)
    requires IsRun(c.hash, PlansOf(c, orders), run) && n < |run| && i < |orders|
    requires i < |run[n].calls| && Finished(PlanOf(c, orders[i]), run[n].calls[i].phase)
    ensures VerifyTarget(c, run[n].target.files, orders[i].record.artifactId, orders[i].distribution)
         == Some(TargetReceiptOf(c, orders[i]))
  {
    var order, files := orders[i], run[n].target.files;
    PlansAreOk(c, orders);
    FinishedIsWhole(c.hash, PlansOf(c, orders), run, n, i);
    FinishedFiles(c, order, files);
    InventoryIsExpected(c, order, files);
    ReceiptReads(c, order, files);
    SelectedVerifies(c, order, files);
    SelectionIsUnique(c, order.distribution, order.record);
  }

  lemma FinishedStep(
    hash: Bytes -> Bytes, plans: seq<Plan<TargetReceipt>>, s: System<TargetReceipt>, s': System<TargetReceipt>, i: nat)
    requires PlansOk(plans) && Next(hash, plans, s, s')
    requires i < |plans| == |s.calls| && Finished(plans[i], s.calls[i].phase)
    ensures |s'.calls| == |plans| && Finished(plans[i], s'.calls[i].phase)
  {
    var j: nat :| StepOf(hash, plans, s, s', j);
    if j == i {
      assert PlanOk(plans[i]);
    }
  }

  lemma {:induction false} FinishedStays(
    hash: Bytes -> Bytes, plans: seq<Plan<TargetReceipt>>, run: seq<System<TargetReceipt>>, m: nat, n: nat, i: nat)
    requires PlansOk(plans) && IsRun(hash, plans, run) && m <= n < |run|
    requires i < |plans| == |run[m].calls| && Finished(plans[i], run[m].calls[i].phase)
    ensures |run[n].calls| == |plans| && Finished(plans[i], run[n].calls[i].phase)
  {
    if m < n {
      FinishedStays(hash, plans, run, m, n - 1, i);
      assert StepAt(hash, plans, run, n);
      FinishedStep(hash, plans, run[n - 1], run[n], i);
    }
  }

  /** It also verifies at every later time: nobody touches what it installed. */
  lemma InstalledStays(c: Codec, orders: seq<Order>, run: seq<System<TargetReceipt>>, m: nat, n: nat, i: nat)
    requires Faithful(c) && Injective(c.hash) && OrdersOk(c, orders)
    requires IsRun(c.hash, PlansOf(c, orders), run) && m <= n < |run| && i < |orders|
    requires |run[m].calls| == |orders| && Finished(PlanOf(c, orders[i]), run[m].calls[i].phase)
    ensures VerifyTarget(c, run[n].target.files, orders[i].record.artifactId, orders[i].distribution)
         == Some(TargetReceiptOf(c, orders[i]))
  {
    PlansAreOk(c, orders);
    FinishedStays(c.hash, PlansOf(c, orders), run, m, n, i);
    FinishedVerifies(c, orders, run, n, i);
  }

  /** A pack that was once begun cannot be provisioned again: whatever became of call `i` after it made
      its pack directory, a call `j` for the same directory that has not started by then never gets
      past its first check. */
  lemma BegunBlocksRetry(c: Codec, orders: seq<Order>, run: seq<System<TargetReceipt>>, m: nat, n: nat, i: nat, j: nat)
    requires OrdersOk(c, orders) && IsRun(c.hash, PlansOf(c, orders), run) && m <= n < |run|
    requires i < |orders| && j < |orders| && |run[m].calls| == |orders|
    requires PackRoot(orders[i].record) == PackRoot(orders[j].record)
    requires run[m].calls[i].phase.Installing? && run[m].calls[j].phase.Idle?
    ensures j < |run[n].calls| && run[n].calls[j].phase.Idle?
  {
    PlansAreOk(c, orders);
    RunKeepsInv(c.hash, PlansOf(c, orders), run, m);
    NoSecondAttempt(c.hash, PlansOf(c, orders), run, m, n, j);
  }

  // ---------------------------------------------------------------- the receipt is well formed

  ghost predicate Ordered(bindings: seq<FileBinding>) {
    forall i, j :: 0 <= i < j < |bindings| ==> Less(bindings[i].path, bindings[j].path)
  }

  ghost predicate DistinctPaths(bindings: seq<FileBinding>) {
    forall i, j :: 0 <= i < j < |bindings| ==> bindings[i].path != bindings[j].path
  }

  lemma SortIsOrdered(bindings: seq<FileBinding>)
    requires DistinctPaths(bindings)
    ensures Ordered(SortBindings(bindings))
  {
    LessIsWeakOrder();
    forall i, j | 0 <= i < j < |bindings|
      ensures BindingBefore(bindings[i], bindings[j]) || BindingBefore(bindings[j], bindings[i])
    {
      LessTotal(bindings[i].path, bindings[j].path);
    }
    SortAscends(bindings, BindingBefore);
  }

  lemma UnderInjective(root: Bytes, a: Bytes, b: Bytes)
    requires a != b
    ensures Under(root, a) != Under(root, b)
  {
    assert Under(root, a)[|root| + 1..] == a && Under(root, b)[|root| + 1..] == b;
  }

  /** A binding from a list of files has the path of one of them. */
  lemma BindingHasPath(root: Bytes, files: seq<PackFile>, licenses: bool, b: FileBinding) returns (i: nat)
    requires b in BindingsWhere(root, files, licenses)
    ensures i < |files| && b.path == Under(root, files[i].path)
  {
    BindingsWhereAre(root, files, licenses, b);
    var k :| 0 <= k < |files| && (files[k].role == License) == licenses && b == BindingUnder(root, files[k]);
    i := k;
  }

  lemma {:induction false} BindingsAreDistinct(root: Bytes, files: seq<PackFile>, licenses: bool)
    requires PathsAscend(files)
    ensures DistinctPaths(BindingsWhere(root, files, licenses))
  {
    if files != [] {
      var rest := files[1..];
      assert forall i :: 0 < i < |rest| ==> rest[i - 1] == files[i] && rest[i] == files[i + 1];
      BindingsAreDistinct(root, rest, licenses);
      var bindings := BindingsWhere(root, rest, licenses);
      forall j | 0 <= j < |bindings|
        ensures bindings[j].path != Under(root, files[0].path)
      {
        var i := BindingHasPath(root, rest, licenses, bindings[j]);
        AscendingPaths(files, 0, i + 1);
        LessIrreflexive(files[0].path);
        UnderInjective(root, rest[i].path, files[0].path);
      }
    }
  }

  lemma RolePathIsNotTheManifest(f: PackFile)
    requires RolePath(f)
    ensures f.path != MANIFEST_FILE
  {
    assert MANIFEST_FILE[0] == 'p' as int && EXECUTABLE_PREFIX[0] == 'b' as int && LICENSE_PREFIX[0] == 'l' as int;
    assert SBOM_PATH[0] == 's' as int;
  }

  lemma {:induction false} SomeLicense(root: Bytes, files: seq<PackFile>)
    requires CountRole(files, License) != 0
    ensures BindingsWhere(root, files, true) != []
  {
    if files[0].role != License {
      SomeLicense(root, files[1..]);
    }
  }

  /** What a manifest in order makes of a receipt: sorted lists of bindings. */
  lemma InstalledAreOrdered(c: Codec, m: PackManifest, root: Bytes, size: nat, sha256: Bytes)
    requires ManifestOk(c, m)
    ensures Ordered(InstalledFiles(root, size, sha256, m.files))
  {
    var first := FileBinding(Under(root, MANIFEST_FILE), size, sha256);
    var others := BindingsWhere(root, m.files, false);
    BindingsAreDistinct(root, m.files, false);
    forall j | 0 <= j < |others|
      ensures others[j].path != first.path
    {
      var i := BindingHasPath(root, m.files, false, others[j]);
      RolePathIsNotTheManifest(m.files[i]);
      UnderInjective(root, m.files[i].path, MANIFEST_FILE);
    }
    SortIsOrdered([first] + others);
  }

  lemma LicensesAreOrdered(c: Codec, m: PackManifest, root: Bytes)
    requires ManifestOk(c, m)
    ensures Ordered(LicenseBindings(root, m.files)) && LicenseBindings(root, m.files) != []
  {
    var bindings := BindingsWhere(root, m.files, true);
    BindingsAreDistinct(root, m.files, true);
    SortIsOrdered(bindings);
    SomeLicense(root, m.files);
    assert |multiset(SortBindings(bindings))| == |multiset(bindings)| > 0;
  }

  lemma ProbesAreInOrder(c: Codec, probes: seq<Probe>, r: PackRecord)
    requires ProbesOk(c, probes, r) && RoleProbes(r)
    ensures ReceiptProbesOk(c, probes)
  {
  }

  lemma InstalledIsNotEmpty(root: Bytes, size: nat, sha256: Bytes, files: seq<PackFile>)
    ensures InstalledFiles(root, size, sha256, files) != []
  {
    var manifest := FileBinding(Under(root, MANIFEST_FILE), size, sha256);
    SortKeepsBindings([manifest] + BindingsWhere(root, files, false), manifest);
  }

  /** The structural checks of `ArtifactReceipt::validate` never fail on the receipt that provisioning
      builds: its bindings are sorted and there are some, and its probes are valid and sorted. Only the
      field checks and the size limit are left. */
  lemma ReceiptIsWellFormed(c: Codec, order: Order)
    requires OrderOk(c, order)
    ensures var receipt := TargetReceiptOf(c, order);
            TargetReceiptOk(c, receipt) <==> c.targetReceiptOk(receipt) && |c.targetJson(receipt)| <= MAX_MANIFEST_BYTES
  {
    var r := order.record;
    InstalledAreOrdered(c, order.manifest, PackRoot(r), order.manifestSize, r.packManifestSha256);
    LicensesAreOrdered(c, order.manifest, PackRoot(r));
    InstalledIsNotEmpty(PackRoot(r), order.manifestSize, r.packManifestSha256, order.refreshed.files);
    ProbesAreInOrder(c, order.refreshed.probes, order.record);
  }
}
