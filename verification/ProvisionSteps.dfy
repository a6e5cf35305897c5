/** Provisioning as steps: the order in which `provision_from_cache` in
    `collect-diff-context-cli/src/artifacts/cache.rs` looks at and changes a target root, for any number
    of provisioners of one target. A provisioner may fail or crash at every step; what it wrote stays. */
module ProvisionSteps {
  import opened ByteStrings
  import opened FileTrees

  /** What one call is going to do. The first `bound` items are the files that the receipt binds, the
      first of them the pack manifest; the last item is the receipt; a context provider has a profile
      and a registry between them. `verify` is the verification that ends the call. */
  datatype Plan<R> = Plan(
    admitted: bool, root: Bytes, distribution: Item, items: seq<Item>, bound: nat, provider: bool,
    receipt: R, receiptOk: bool, verify: Tree -> Option<R>)

  datatype Phase =
    | Idle
    | Checked
    | Retaining(progress: Progress)
    | Rooting
    | Installing(progress: Progress)
    | Withdrawn

  datatype Outcome<R> = Running | Stopped | Success(receipt: R)

  datatype Call<R> = Call(phase: Phase, outcome: Outcome<R>)

  /** `roots` are the pack directories that were created, which may still be empty. */
  datatype Target = Target(files: Tree, roots: set<Bytes>)

  datatype System<R> = System(target: Target, calls: seq<Call<R>>)

  /** `pack_root.exists()`. */
  ghost predicate Occupied(t: Target, root: Bytes) {
    root in t.roots || root in t.files || AnyBeneath(t.files, root)
  }

  ghost predicate AnyBeneath(files: Tree, root: Bytes) {
    exists path :: path in files && Beneath(root, path)
  }

  // ---------------------------------------------------------------- steps of one call

  ghost predicate Check(p: Plan, t: Target, f: Phase, t': Target, f': Phase) {
    f.Idle? && p.admitted && !Occupied(t, p.root) && t' == t && f' == Checked
  }

  /** The distribution manifest is kept when it is already there, and must then be the same. */
  ghost predicate RetainFound(p: Plan, t: Target, f: Phase, t': Target, f': Phase) {
    && f.Checked? && t' == t && f' == Rooting
    && p.distribution.path in t.files && p.distribution.Written?
    && t.files[p.distribution.path] == p.distribution.bytes
  }

  ghost predicate RetainMissing(p: Plan, t: Target, f: Phase, t': Target, f': Phase) {
    f.Checked? && p.distribution.path !in t.files && t' == t && f' == Retaining(Creating(0))
  }

  ghost predicate Retain(hash: Bytes -> Bytes, p: Plan, t: Target, f: Phase, t': Target, f': Phase) {
    && f.Retaining? && t'.roots == t.roots
    && if f.progress == Creating(1) then t' == t && f' == Rooting
       else f'.Retaining? && FileStep(hash, [p.distribution], t.files, f.progress, t'.files, f'.progress)
  }

  ghost predicate MakeRoot(p: Plan, t: Target, f: Phase, t': Target, f': Phase) {
    f.Rooting? && t' == t.(roots := t.roots + {p.root}) && f' == Installing(Creating(0))
  }

  /** The receipt is checked before it is written. */
  ghost predicate Install(hash: Bytes -> Bytes, p: Plan, t: Target, f: Phase, t': Target, f': Phase) {
    && f.Installing? && f'.Installing? && t'.roots == t.roots
    && (f.progress.Creating? && f.progress.next + 1 == |p.items| ==> p.receiptOk)
    && FileStep(hash, p.items, t.files, f.progress, t'.files, f'.progress)
  }

  /** The registry could not be written: the profile is removed again. */
  ghost predicate Withdraw(p: Plan, t: Target, f: Phase, t': Target, f': Phase) {
    && p.provider && f.Installing? && f.progress.next == p.bound + 1 && p.bound < |p.items|
    && t' == t.(files := t.files - {p.items[p.bound].path})
    && f' == Withdrawn
  }

  ghost predicate ChangeStep(hash: Bytes -> Bytes, p: Plan, t: Target, f: Phase, t': Target, f': Phase) {
    || Check(p, t, f, t', f')
    || RetainFound(p, t, f, t', f')
    || RetainMissing(p, t, f, t', f')
    || Retain(hash, p, t, f, t', f')
    || MakeRoot(p, t, f, t', f')
    || Install(hash, p, t, f, t', f')
  }

  ghost predicate Finished(p: Plan, f: Phase) {
    f == Installing(Creating(|p.items|))
  }

  ghost predicate CallStep<R>(hash: Bytes -> Bytes, p: Plan<R>, t: Target, a: Call<R>, t': Target, a': Call<R>) {
    && a.outcome.Running?
    && (|| (a'.outcome.Running? && ChangeStep(hash, p, t, a.phase, t', a'.phase))
        || (a'.outcome.Stopped? && Withdraw(p, t, a.phase, t', a'.phase))
        || (a'.outcome.Stopped? && t' == t && a'.phase == a.phase)
        || (t' == t && Finished(p, a.phase) && a'.phase == a.phase
            && p.verify(t.files).Some? && a'.outcome == Success(p.verify(t.files).value)))
  }

  ghost predicate StepOf<R>(hash: Bytes -> Bytes, plans: seq<Plan<R>>, s: System<R>, s': System<R>, i: nat) {
    && i < |plans| && |s.calls| == |s'.calls| == |plans|
    && CallStep(hash, plans[i], s.target, s.calls[i], s'.target, s'.calls[i])
    && s'.calls == s.calls[i := s'.calls[i]]
  }

  ghost predicate Next<R>(hash: Bytes -> Bytes, plans: seq<Plan<R>>, s: System<R>, s': System<R>) {
    exists i: nat :: StepOf(hash, plans, s, s', i)
  }

  // ---------------------------------------------------------------- what a plan must look like

  /** The directory of receipts. */
  const RECEIPTS: Bytes := Ascii("runtime/artifact-receipts")

  ghost predicate PlanOk(p: Plan) {
    && 1 <= p.bound && |p.items| == p.bound + 1 + (if p.provider then 2 else 0)
    && (forall i :: 0 <= i < p.bound ==> Beneath(p.root, p.items[i].path))
    && (forall i :: 0 <= i < |p.items| - 1 ==> !Beneath(RECEIPTS, p.items[i].path))
    && !Beneath(RECEIPTS, p.distribution.path)
    && p.items[|p.items| - 1].Written?
  }

  /** Where a call writes beneath the pack directory of another one, the two directories and their pack
      manifests are the same. */
  ghost predicate RootsApart(p: Plan, q: Plan)
    requires PlanOk(p) && PlanOk(q)
  {
    && !Beneath(q.root, p.distribution.path)
    && (forall i :: p.bound <= i < |p.items| ==> !Beneath(q.root, p.items[i].path))
    && (forall i :: 0 <= i < p.bound && Beneath(q.root, p.items[i].path) ==> p.items[0].path == q.items[0].path)
  }

  ghost predicate PlansOk(plans: seq<Plan>) {
    && (forall i :: 0 <= i < |plans| ==> PlanOk(plans[i]))
    && (forall i, j :: 0 <= i < |plans| && 0 <= j < |plans| ==> RootsApart(plans[i], plans[j]))
  }

  // ---------------------------------------------------------------- what one call keeps

  function OwnedBy(p: Plan, f: Phase): set<Bytes> {
    match f
    case Retaining(progress) => Owned([p.distribution], progress)
    case Installing(progress) => Owned(p.items, progress)
    case _ => {}
  }

  /** The call has created its pack manifest. */
  ghost predicate PastManifest(f: Phase) {
    f.Installing? && f.progress != Creating(0)
  }

  /** Before it creates its pack manifest, its directory is empty or lost to another call; afterwards
      everything in the directory is its own. */
  ghost predicate RootIsMine(p: Plan, t: Target, f: Phase)
    requires PlanOk(p)
  {
    if PastManifest(f) then forall path :: path in t.files && Beneath(p.root, path) ==> path in OwnedBy(p, f)
    else f.Idle? || f.Withdrawn? || p.items[0].path in t.files || !AnyBeneath(t.files, p.root)
  }

  ghost predicate CallOk(hash: Bytes -> Bytes, p: Plan, t: Target, f: Phase)
    requires PlanOk(p)
  {
    && (f.Retaining? ==> InPlace(hash, [p.distribution], f.progress, t.files))
    && (f.Installing? ==>
          && InPlace(hash, p.items, f.progress, t.files)
          && p.root in t.roots
          && (f.progress.next + (if f.progress.Filling? then 1 else 0) >= |p.items| ==> p.receiptOk))
    && OwnedBy(p, f) <= t.files.Keys
    && RootIsMine(p, t, f)
  }

  /** What a step does to the target, as seen by the other calls: it leaves every file alone that the
      call does not own, creates only files that the call then owns, and removes at most a profile. */
  ghost predicate Guarantee(p: Plan, t: Target, f: Phase, t': Target, f': Phase)
    requires PlanOk(p)
  {
    && t.roots <= t'.roots
    && (forall path :: path in t.files && path !in OwnedBy(p, f) ==>
          path in t'.files && t'.files[path] == t.files[path])
    && (forall path :: path in t.files && path !in t'.files ==> p.bound < |p.items| && path == p.items[p.bound].path)
    && (forall path :: path in t'.files && path !in t.files ==> path in OwnedBy(p, f'))
    && (forall path :: path in OwnedBy(p, f') && path !in OwnedBy(p, f) ==> path !in t.files)
    && (forall path :: path in OwnedBy(p, f) && Beneath(RECEIPTS, path) ==> path in OwnedBy(p, f'))
  }

  lemma OwnedIsListed(p: Plan, f: Phase, path: Bytes)
    requires path in OwnedBy(p, f)
    ensures path == p.distribution.path || exists i :: 0 <= i < |p.items| && path == p.items[i].path && f.Installing?
  {
    if f.Installing? {
      var i :| 0 <= i < |p.items| && path == p.items[i].path;
    }
  }

  lemma RetainKeeps(hash: Bytes -> Bytes, p: Plan, t: Target, f: Phase, t': Target, f': Phase)
    requires PlanOk(p) && RootsApart(p, p) && CallOk(hash, p, t, f) && Retain(hash, p, t, f, t', f')
    ensures CallOk(hash, p, t', f') && Guarantee(p, t, f, t', f')
  {
    if f.progress != Creating(1) {
      StepKeepsInPlace(hash, [p.distribution], t.files, f.progress, t'.files, f'.progress);
      assert forall path :: path in t'.files && path !in t.files ==> path == p.distribution.path;
    }
    forall path | path in OwnedBy(p, f)
      ensures path == p.distribution.path
    {
    }
  }

  lemma InstallKeepsRoot(hash: Bytes -> Bytes, p: Plan, t: Target, f: Phase, t': Target, f': Phase)
    requires PlanOk(p) && CallOk(hash, p, t, f) && Install(hash, p, t, f, t', f')
    ensures RootIsMine(p, t', f')
  {
    StepKeepsInPlace(hash, p.items, t.files, f.progress, t'.files, f'.progress);
    if PastManifest(f) {
      assert PastManifest(f');
    } else {
      assert !AnyBeneath(t.files, p.root);
      assert Create(p.items, t.files, f.progress, t'.files, f'.progress);
    }
  }

  lemma InstallKeeps(hash: Bytes -> Bytes, p: Plan, t: Target, f: Phase, t': Target, f': Phase)
    requires PlanOk(p) && CallOk(hash, p, t, f) && Install(hash, p, t, f, t', f')
    ensures CallOk(hash, p, t', f') && Guarantee(p, t, f, t', f')
  {
    InstallKeepsFiles(hash, p, t, f, t', f');
    InstallKeepsRoot(hash, p, t, f, t', f');
  }

  lemma InstallKeepsFiles(hash: Bytes -> Bytes, p: Plan, t: Target, f: Phase, t': Target, f': Phase)
    requires PlanOk(p) && CallOk(hash, p, t, f) && Install(hash, p, t, f, t', f')
    ensures InPlace(hash, p.items, f'.progress, t'.files) && OwnedBy(p, f') <= t'.files.Keys
    ensures f'.progress.next + (if f'.progress.Filling? then 1 else 0) >= |p.items| ==> p.receiptOk
    ensures Guarantee(p, t, f, t', f')
  {
    StepKeepsInPlace(hash, p.items, t.files, f.progress, t'.files, f'.progress);
  }

  lemma WithdrawKeeps(hash: Bytes -> Bytes, p: Plan, t: Target, f: Phase, t': Target, f': Phase)
    requires PlanOk(p) && CallOk(hash, p, t, f) && Withdraw(p, t, f, t', f')
    ensures CallOk(hash, p, t', f') && Guarantee(p, t, f, t', f')
  {
    assert p.items[p.bound].path in OwnedBy(p, f);
    forall path | path in OwnedBy(p, f)
      ensures !Beneath(RECEIPTS, path)
    {
      var i :| 0 <= i < |p.items| - 1 && path == p.items[i].path;
    }
  }

  lemma ChangeKeeps(hash: Bytes -> Bytes, p: Plan, t: Target, f: Phase, t': Target, f': Phase)
    requires PlanOk(p) && RootsApart(p, p) && CallOk(hash, p, t, f) && ChangeStep(hash, p, t, f, t', f')
    ensures CallOk(hash, p, t', f') && Guarantee(p, t, f, t', f')
  {
    if Retain(hash, p, t, f, t', f') {
      RetainKeeps(hash, p, t, f, t', f');
    } else if Install(hash, p, t, f, t', f') {
      InstallKeeps(hash, p, t, f, t', f');
    }
  }

  /** Beneath the pack directory of another plan, a call owns files only together with the manifest. */
  lemma OwnedBeneath(p: Plan, f: Phase, q: Plan, path: Bytes)
    requires PlanOk(p) && PlanOk(q) && RootsApart(p, q)
    requires path in OwnedBy(p, f) && Beneath(q.root, path)
    ensures q.items[0].path in OwnedBy(p, f)
  {
    OwnedIsListed(p, f, path);
    assert f.Installing?;
    var i :| 0 <= i < |p.items| && (i < f.progress.next || (f.progress.Filling? && i == f.progress.next))
             && path == p.items[i].path;
    assert i < p.bound;
    assert p.items[0].path in Owned(p.items, f.progress);
  }

  lemma OthersKeepRoot(p: Plan, t: Target, f: Phase, t': Target, f': Phase, q: Plan, g: Phase)
    requires PlanOk(p) && PlanOk(q) && RootsApart(p, q)
    requires RootIsMine(q, t, g) && Guarantee(p, t, f, t', f') && OwnedBy(q, g) <= t.files.Keys
    requires OwnedBy(p, f) !! OwnedBy(q, g) && OwnedBy(p, f') <= t'.files.Keys
    ensures RootIsMine(q, t', g)
  {
    if PastManifest(g) {
      assert q.items[0].path in OwnedBy(q, g);
      forall path | path in t'.files && Beneath(q.root, path)
        ensures path in OwnedBy(q, g)
      {
        if path !in t.files {
          OwnedBeneath(p, f', q, path);
        }
      }
    } else if q.items[0].path in t.files {
      assert Beneath(q.root, q.items[0].path);
      assert q.items[0].path in t'.files;
    } else if AnyBeneath(t'.files, q.root) && !AnyBeneath(t.files, q.root) {
      var path :| path in t'.files && Beneath(q.root, path);
      OwnedBeneath(p, f', q, path);
    }
  }

  lemma OthersKeep(hash: Bytes -> Bytes, p: Plan, t: Target, f: Phase, t': Target, f': Phase, q: Plan, g: Phase)
    requires PlanOk(p) && PlanOk(q) && RootsApart(p, q)
    requires CallOk(hash, q, t, g) && Guarantee(p, t, f, t', f')
    requires OwnedBy(p, f) !! OwnedBy(q, g) && OwnedBy(p, f') <= t'.files.Keys
    ensures CallOk(hash, q, t', g) && OwnedBy(p, f') !! OwnedBy(q, g)
  {
    OthersKeepRoot(p, t, f, t', f', q, g);
    if g.Retaining? {
      OthersKeepInPlace(hash, [q.distribution], g.progress, t.files, t'.files);
    }
    if g.Installing? {
      OthersKeepInPlace(hash, q.items, g.progress, t.files, t'.files);
    }
  }

  // ---------------------------------------------------------------- the invariant of the system

  ghost predicate CallsOk<R>(hash: Bytes -> Bytes, plans: seq<Plan<R>>, s: System<R>)
    requires PlansOk(plans)
  {
    && |s.calls| == |plans|
    && (forall i :: 0 <= i < |plans| ==> CallOk(hash, plans[i], s.target, s.calls[i].phase))
    && (forall i, j :: 0 <= i < |plans| && 0 <= j < |plans| && i != j ==>
          OwnedBy(plans[i], s.calls[i].phase) !! OwnedBy(plans[j], s.calls[j].phase))
  }

  /** Files that were there before the run never change. */
  ghost predicate OldKept<R>(before: Tree, plans: seq<Plan<R>>, s: System<R>)
    requires |s.calls| == |plans|
  {
    && (forall path :: path in before ==> path in s.target.files && s.target.files[path] == before[path])
    && (forall i :: 0 <= i < |plans| ==> OwnedBy(plans[i], s.calls[i].phase) !! before.Keys)
  }

  ghost predicate OwnedByAny<R>(plans: seq<Plan<R>>, s: System<R>, path: Bytes)
    requires |s.calls| == |plans|
  {
    exists i :: 0 <= i < |plans| && path in OwnedBy(plans[i], s.calls[i].phase)
  }

  /** Every new file in the directory of receipts still belongs to the call that created it. */
  ghost predicate ReceiptsOwned<R>(before: Tree, plans: seq<Plan<R>>, s: System<R>)
    requires |s.calls| == |plans|
  {
    forall path :: path in s.target.files && path !in before && Beneath(RECEIPTS, path) ==> OwnedByAny(plans, s, path)
  }

  ghost predicate Inv<R>(hash: Bytes -> Bytes, before: Tree, plans: seq<Plan<R>>, s: System<R>) {
    PlansOk(plans) && CallsOk(hash, plans, s) && OldKept(before, plans, s) && ReceiptsOwned(before, plans, s)
  }

  lemma StepGuarantees<R>(hash: Bytes -> Bytes, plans: seq<Plan<R>>, s: System<R>, s': System<R>, i: nat)
    requires PlansOk(plans) && CallsOk(hash, plans, s) && StepOf(hash, plans, s, s', i)
    ensures CallOk(hash, plans[i], s'.target, s'.calls[i].phase)
    ensures Guarantee(plans[i], s.target, s.calls[i].phase, s'.target, s'.calls[i].phase)
  {
    var p, a, a' := plans[i], s.calls[i], s'.calls[i];
    assert PlanOk(p) && RootsApart(p, p) && CallOk(hash, p, s.target, a.phase);
    if ChangeStep(hash, p, s.target, a.phase, s'.target, a'.phase) {
      ChangeKeeps(hash, p, s.target, a.phase, s'.target, a'.phase);
    } else if Withdraw(p, s.target, a.phase, s'.target, a'.phase) {
      WithdrawKeeps(hash, p, s.target, a.phase, s'.target, a'.phase);
    }
  }

  lemma StepKeepsCalls<R>(hash: Bytes -> Bytes, plans: seq<Plan<R>>, s: System<R>, s': System<R>, i: nat)
    requires PlansOk(plans) && CallsOk(hash, plans, s) && StepOf(hash, plans, s, s', i)
    ensures CallsOk(hash, plans, s')
  {
    StepGuarantees(hash, plans, s, s', i);
    forall j | 0 <= j < |plans| && j != i
      ensures CallOk(hash, plans[j], s'.target, s'.calls[j].phase)
      ensures OwnedBy(plans[i], s'.calls[i].phase) !! OwnedBy(plans[j], s'.calls[j].phase)
    {
      OthersKeep(hash, plans[i], s.target, s.calls[i].phase, s'.target, s'.calls[i].phase, plans[j], s.calls[j].phase);
    }
  }

  lemma StepKeepsOld<R>(before: Tree, plans: seq<Plan<R>>, s: System<R>, s': System<R>, i: nat)
    requires i < |plans| == |s.calls| && PlanOk(plans[i])
    requires OldKept(before, plans, s) && ReceiptsOwned(before, plans, s)
    requires |s'.calls| == |s.calls| && s'.calls == s.calls[i := s'.calls[i]]
    requires Guarantee(plans[i], s.target, s.calls[i].phase, s'.target, s'.calls[i].phase)
    ensures OldKept(before, plans, s') && ReceiptsOwned(before, plans, s')
  {
    forall path | path in s'.target.files && path !in before && Beneath(RECEIPTS, path)
      ensures OwnedByAny(plans, s', path)
    {
      if path in s.target.files {
        var j :| 0 <= j < |plans| && path in OwnedBy(plans[j], s.calls[j].phase);
        assert path in OwnedBy(plans[j], s'.calls[j].phase);
      } else {
        assert path in OwnedBy(plans[i], s'.calls[i].phase);
      }
    }
  }

  lemma StepKeepsInv<R>(hash: Bytes -> Bytes, before: Tree, plans: seq<Plan<R>>, s: System<R>, s': System<R>)
    requires Inv(hash, before, plans, s) && Next(hash, plans, s, s')
    ensures Inv(hash, before, plans, s') && s.target.roots <= s'.target.roots
  {
    var i: nat :| StepOf(hash, plans, s, s', i);
    StepGuarantees(hash, plans, s, s', i);
    StepKeepsCalls(hash, plans, s, s', i);
    StepKeepsOld(before, plans, s, s', i);
  }

  // ---------------------------------------------------------------- runs

  ghost predicate Init<R>(plans: seq<Plan<R>>, s: System<R>) {
    |s.calls| == |plans| && forall i :: 0 <= i < |plans| ==> s.calls[i] == Call(Idle, Running)
  }

  /** Any interleaving of any number of calls on any target, with failures and crashes anywhere. */
  ghost predicate IsRun<R>(hash: Bytes -> Bytes, plans: seq<Plan<R>>, run: seq<System<R>>) {
    && run != [] && Init(plans, run[0])
    && forall n :: 0 < n < |run| ==> StepAt(hash, plans, run, n)
  }

  ghost predicate StepAt<R>(hash: Bytes -> Bytes, plans: seq<Plan<R>>, run: seq<System<R>>, n: nat)
    requires 0 < n < |run|
  {
    Next(hash, plans, run[n - 1], run[n])
  }

  lemma {:induction false} RunKeepsInv<R>(hash: Bytes -> Bytes, plans: seq<Plan<R>>, run: seq<System<R>>, n: nat)
    requires PlansOk(plans) && IsRun(hash, plans, run) && n < |run|
    ensures forall m :: 0 <= m <= n ==> Inv(hash, run[0].target.files, plans, run[m])
  {
    var before := run[0].target.files;
    if n > 0 {
      RunKeepsInv(hash, plans, run, n - 1);
      var s, s' := run[n - 1], run[n];
      assert StepAt(hash, plans, run, n);
      StepKeepsInv(hash, before, plans, s, s');
    }
  }

  /** The first `bound` files of a plan are there, with the bound sizes and digests. */
  ghost predicate Bound<R>(hash: Bytes -> Bytes, p: Plan<R>, files: Tree) {
    && p.bound < |p.items|
    && forall i :: 0 <= i < p.bound ==> p.items[i].path in files && Complete(hash, p.items[i], files[p.items[i].path])
  }

  function ReceiptItem<R>(p: Plan<R>): Item
    requires p.items != []
  {
    p.items[|p.items| - 1]
  }

  /** A new file in the directory of receipts holds a beginning of the receipt of some plan, and all the
      files that this receipt binds are in place: at every step and after every crash. */
  lemma ReceiptComesLast<R>(hash: Bytes -> Bytes, plans: seq<Plan<R>>, run: seq<System<R>>, n: nat, path: Bytes)
    requires PlansOk(plans) && IsRun(hash, plans, run) && n < |run|
    requires path in run[n].target.files && path !in run[0].target.files && Beneath(RECEIPTS, path)
    ensures exists i :: 0 <= i < |plans| && path == ReceiptItem(plans[i]).path
                        && MayHold(ReceiptItem(plans[i]), run[n].target.files[path])
                        && plans[i].receiptOk && Bound(hash, plans[i], run[n].target.files)
  {
    RunKeepsInv(hash, plans, run, n);
    var s := run[n];
    var i :| 0 <= i < |plans| && path in OwnedBy(plans[i], s.calls[i].phase);
    OwnsReceipt(hash, plans[i], s.target, s.calls[i].phase, path);
  }

  lemma OwnsReceipt<R>(hash: Bytes -> Bytes, p: Plan<R>, t: Target, f: Phase, path: Bytes)
    requires PlanOk(p) && CallOk(hash, p, t, f) && path in OwnedBy(p, f) && Beneath(RECEIPTS, path)
    ensures path == ReceiptItem(p).path && MayHold(ReceiptItem(p), t.files[path])
    ensures p.receiptOk && Bound(hash, p, t.files)
  {
    OwnedIsListed(p, f, path);
    var last := |p.items| - 1;
    var i :| 0 <= i < |p.items| && (i < f.progress.next || (f.progress.Filling? && i == f.progress.next))
             && path == p.items[i].path;
    assert i == last;
  }

  /** Files that were in the target before stay as they were. */
  lemma OldFilesStay<R>(hash: Bytes -> Bytes, plans: seq<Plan<R>>, run: seq<System<R>>, n: nat, path: Bytes)
    requires PlansOk(plans) && IsRun(hash, plans, run) && n < |run| && path in run[0].target.files
    ensures path in run[n].target.files && run[n].target.files[path] == run[0].target.files[path]
  {
    RunKeepsInv(hash, plans, run, n);
  }

  // ---------------------------------------------------------------- completion

  /** When the last file is written, everything in the pack directory is the call's own, and every file
      it wrote is complete. */
  lemma FinishedIsWhole<R>(hash: Bytes -> Bytes, plans: seq<Plan<R>>, run: seq<System<R>>, n: nat, i: nat)
    requires PlansOk(plans) && IsRun(hash, plans, run) && n < |run| && i < |plans|
    requires i < |run[n].calls| && Finished(plans[i], run[n].calls[i].phase)
    ensures plans[i].receiptOk
    ensures InPlace(hash, plans[i].items, Creating(|plans[i].items|), run[n].target.files)
    ensures forall path :: path in run[n].target.files && Beneath(plans[i].root, path) ==>
              exists k :: 0 <= k < |plans[i].items| && path == plans[i].items[k].path
  {
    RunKeepsInv(hash, plans, run, n);
    var p, f := plans[i], run[n].calls[i].phase;
    assert CallOk(hash, p, run[n].target, f);
    forall path | path in run[n].target.files && Beneath(p.root, path)
      ensures exists k :: 0 <= k < |p.items| && path == p.items[k].path
    {
      assert path in OwnedBy(p, f);
    }
  }

  // ---------------------------------------------------------------- trying again

  lemma StepKeepsRoots<R>(hash: Bytes -> Bytes, plans: seq<Plan<R>>, s: System<R>, s': System<R>)
    requires Next(hash, plans, s, s')
    ensures s.target.roots <= s'.target.roots
  {
  }

  lemma {:induction false} RootsStay<R>(hash: Bytes -> Bytes, plans: seq<Plan<R>>, run: seq<System<R>>, m: nat, n: nat)
    requires IsRun(hash, plans, run) && m <= n < |run|
    ensures run[m].target.roots <= run[n].target.roots
  {
    if m < n {
      RootsStay(hash, plans, run, m, n - 1);
      assert StepAt(hash, plans, run, n);
      StepKeepsRoots(hash, plans, run[n - 1], run[n]);
    }
  }

  lemma IdleStays<R>(hash: Bytes -> Bytes, plans: seq<Plan<R>>, s: System<R>, s': System<R>, j: nat)
    requires Next(hash, plans, s, s') && j < |plans| && plans[j].root in s.target.roots
    requires j < |s.calls| && s.calls[j].phase.Idle?
    ensures j < |s'.calls| && s'.calls[j].phase.Idle?
  {
    assert Occupied(s.target, plans[j].root);
  }

  /** A pack directory, once made, is never removed; so after a call that crashed or failed beyond that
      point, no later call for the same directory ever gets past its first check. */
  lemma {:induction false} NoSecondAttempt<R>(
    hash: Bytes -> Bytes, plans: seq<Plan<R>>, run: seq<System<R>>, m: nat, n: nat, j: nat)
    requires IsRun(hash, plans, run) && m <= n < |run| && j < |plans|
    requires plans[j].root in run[m].target.roots
    requires j < |run[m].calls| && run[m].calls[j].phase.Idle?
    ensures j < |run[n].calls| && run[n].calls[j].phase.Idle?
  {
    if m < n {
      NoSecondAttempt(hash, plans, run, m, n - 1, j);
      RootsStay(hash, plans, run, m, n - 1);
      assert StepAt(hash, plans, run, n);
      IdleStays(hash, plans, run[n - 1], run[n], j);
    }
  }
}
