/** When a call of `provision_from_cache` in `collect-diff-context-cli/src/artifacts/cache.rs` can succeed
    on a given target: exactly when the target meets a condition that can be read off it before the call.
    What an earlier call left behind may violate it. */
module ProvisionAgain {
  import opened ByteStrings
  import opened FileTrees
  import opened ProvisionSteps

  /** Two files that can be in one tree. */
  ghost predicate Compatible(a: Bytes, b: Bytes) {
    a != b && !Beneath(a, b) && !Beneath(b, a)
  }

  /** There is something to copy. */
  ghost predicate Obtainable(hash: Bytes -> Bytes, item: Item) {
    exists content: Bytes :: Complete(hash, item, content)
  }

  /** The files with the distribution manifest beside them. */
  function WithDistribution<R>(p: Plan<R>, files: Tree): Tree
    requires p.distribution.Written?
  {
    files[p.distribution.path := p.distribution.bytes]
  }

  /** The distribution manifest is there and the same, or it can be created. */
  ghost predicate DistributionOk<R>(p: Plan<R>, files: Tree) {
    && p.distribution.Written?
    && if p.distribution.path in files then files[p.distribution.path] == p.distribution.bytes
       else Free(files, p.distribution.path)
  }

  ghost predicate ItemOk<R>(p: Plan<R>, files: Tree, i: nat)
    requires i < |p.items| && p.distribution.Written?
  {
    && Free(WithDistribution(p, files), p.items[i].path)
    && (forall j :: 0 <= j < i ==> Compatible(p.items[j].path, p.items[i].path))
  }

  /** What a call needs of the target, of its sources and of its plan. */
  ghost predicate Ready<R>(hash: Bytes -> Bytes, p: Plan<R>, t: Target) {
    && p.admitted && p.receiptOk
    && !Occupied(t, p.root)
    && DistributionOk(p, t.files)
    && (forall i :: 0 <= i < |p.items| ==> ItemOk(p, t.files, i) && Obtainable(hash, p.items[i]))
  }

  /** One call alone on a target. */
  ghost predicate SoloRun<R>(hash: Bytes -> Bytes, p: Plan<R>, t: Target, run: seq<System<R>>) {
    IsRun(hash, [p], run) && run[0].target == t
  }

  /** The run has come to this target and this call. */
  ghost predicate EndsAt<R>(run: seq<System<R>>, t: Target, a: Call<R>) {
    run != [] && run[|run| - 1] == System(t, [a])
  }

  ghost predicate Reaches<R(!new)>(hash: Bytes -> Bytes, p: Plan<R>, t0: Target, t: Target, a: Call<R>) {
    exists run: seq<System<R>> :: SoloRun(hash, p, t0, run) && EndsAt(run, t, a)
  }

  /** The call can write all of its files. */
  ghost predicate CanFinish<R(!new)>(hash: Bytes -> Bytes, p: Plan<R>, t0: Target) {
    exists t: Target :: Reaches(hash, p, t0, t, Call(Installing(Creating(|p.items|)), Running))
  }

  // ---------------------------------------------------------------- what a call has found on its way

  ghost predicate StillThere(before: Tree, files: Tree) {
    forall path :: path in before ==> path in files && files[path] == before[path]
  }

  /** The number of items that exist. */
  function Created(progress: Progress): nat {
    progress.next + if progress.Filling? then 1 else 0
  }

  /** The paths of the first items. */
  function FirstPaths<R>(p: Plan<R>, k: nat): set<Bytes>
    requires k <= |p.items|
  {
    set i | 0 <= i < k :: p.items[i].path
  }

  ghost predicate Admits<R>(p: Plan<R>, t0: Target) {
    p.admitted && !Occupied(t0, p.root)
  }

  /** What a call in phase `f` has found on the target `t0`, and what it has made of it. */
  ghost predicate Found<R>(hash: Bytes -> Bytes, p: Plan<R>, t0: Target, t: Target, f: Phase) {
    match f
    case Idle => t == t0
    case Checked => t == t0 && Admits(p, t0)
    case Retaining(progress) => Admits(p, t0) && t.roots == t0.roots && RetainedSoFar(p, t0.files, t.files, progress)
    case Rooting =>
      && Admits(p, t0) && DistributionOk(p, t0.files)
      && t == Target(WithDistribution(p, t0.files), t0.roots)
    case Installing(progress) =>
      && Admits(p, t0) && DistributionOk(p, t0.files)
      && t.roots == t0.roots + {p.root} && StillThere(WithDistribution(p, t0.files), t.files)
      && InstalledSoFar(hash, p, t0.files, t.files, progress) && OnlyItems(p, t0.files, t.files, Created(progress))
    case Withdrawn => p.root in t.roots
  }

  ghost predicate RetainedSoFar<R>(p: Plan<R>, before: Tree, files: Tree, progress: Progress) {
    var path := p.distribution.path;
    && path !in before
    && if progress == Creating(0) then files == before
       else
         && Free(before, path) && path in files && files == before[path := files[path]]
         && (progress.Creating? ==> DistributionOk(p, files))
  }

  ghost predicate InstalledSoFar<R>(hash: Bytes -> Bytes, p: Plan<R>, before: Tree, files: Tree, progress: Progress)
    requires p.distribution.Written?
  {
    && Created(progress) <= |p.items|
    && (forall i :: 0 <= i < Created(progress) ==> p.items[i].path in files && ItemOk(p, before, i))
    && (forall i :: 0 <= i < progress.next ==> Obtainable(hash, p.items[i]))
    && (Created(progress) >= |p.items| ==> p.receiptOk)
  }

  /** There are no new files but the distribution manifest and the first items. */
  ghost predicate OnlyItems<R>(p: Plan<R>, before: Tree, files: Tree, k: nat)
    requires p.distribution.Written?
  {
    k <= |p.items| && files.Keys == WithDistribution(p, before).Keys + FirstPaths(p, k)
  }

  lemma RetainIsFound<R>(hash: Bytes -> Bytes, p: Plan<R>, t0: Target, t: Target, f: Phase, t': Target, f': Phase)
    requires p.distribution.Written? && Found(hash, p, t0, t, f) && Retain(hash, p, t, f, t', f')
    ensures Found(hash, p, t0, t', f')
  {
  }

  /** A path that is free among more files is free among fewer. */
  lemma CreateIsFound<R>(p: Plan<R>, before: Tree, files: Tree, k: nat)
    requires p.distribution.Written? && k < |p.items| && StillThere(WithDistribution(p, before), files)
    requires Free(files, p.items[k].path)
    requires forall i :: 0 <= i < k ==> p.items[i].path in files
    ensures ItemOk(p, before, k)
  {
    forall other | other in WithDistribution(p, before)
      ensures other in files
    {
    }
  }

  lemma CreateAddsTheItem<R>(p: Plan<R>, before: Tree, files: Tree, k: nat, files': Tree)
    requires p.distribution.Written? && k < |p.items| && OnlyItems(p, before, files, k)
    requires files'.Keys == files.Keys + {p.items[k].path}
    ensures OnlyItems(p, before, files', k + 1)
  {
    assert FirstPaths(p, k + 1) == FirstPaths(p, k) + {p.items[k].path};
  }

  lemma StillThereTwice(a: Tree, b: Tree, c: Tree)
    requires StillThere(a, b) && StillThere(b, c)
    ensures StillThere(a, c)
  {
  }

  lemma CreatedSoFar<R>(hash: Bytes -> Bytes, p: Plan<R>, before: Tree, files: Tree, k: nat, files': Tree)
    requires p.distribution.Written? && k < |p.items| && StillThere(files, files') && p.items[k].path in files'
    requires InstalledSoFar(hash, p, before, files, Creating(k)) && ItemOk(p, before, k)
    requires k + 1 == |p.items| ==> p.receiptOk
    ensures InstalledSoFar(hash, p, before, files', Filling(k))
  {
  }

  lemma InstallCreates<R>(hash: Bytes -> Bytes, p: Plan<R>, before: Tree, files: Tree, k: nat, files': Tree)
    requires p.distribution.Written? && k < |p.items| && Free(files, p.items[k].path)
    requires files' == files[p.items[k].path := []]
    requires StillThere(WithDistribution(p, before), files) && OnlyItems(p, before, files, k)
    requires InstalledSoFar(hash, p, before, files, Creating(k)) && (k + 1 == |p.items| ==> p.receiptOk)
    ensures InstalledSoFar(hash, p, before, files', Filling(k)) && OnlyItems(p, before, files', k + 1)
    ensures StillThere(WithDistribution(p, before), files')
  {
    CreateIsFound(p, before, files, k);
    CreateAddsTheItem(p, before, files, k, files');
    assert StillThere(files, files');
    CreatedSoFar(hash, p, before, files, k, files');
    StillThereTwice(WithDistribution(p, before), files, files');
  }

  lemma InstallFills<R>(hash: Bytes -> Bytes, p: Plan<R>, t0: Target, t: Target, f: Phase, t': Target, f': Phase)
    requires p.distribution.Written? && f.Installing? && Found(hash, p, t0, t, f) && Install(hash, p, t, f, t', f')
    requires f.progress.Filling?
    ensures InstalledSoFar(hash, p, t0.files, t'.files, f'.progress)
    ensures OnlyItems(p, t0.files, t'.files, Created(f'.progress))
    ensures StillThere(WithDistribution(p, t0.files), t'.files)
  {
    assert t'.files.Keys == t.files.Keys;
    assert ItemOk(p, t0.files, f.progress.next);
  }

  lemma InstallIsFound<R>(hash: Bytes -> Bytes, p: Plan<R>, t0: Target, t: Target, f: Phase, t': Target, f': Phase)
    requires p.distribution.Written? && Found(hash, p, t0, t, f) && Install(hash, p, t, f, t', f')
    ensures Found(hash, p, t0, t', f')
  {
    if f.progress.Creating? {
      InstallCreates(hash, p, t0.files, t.files, f.progress.next, t'.files);
    } else {
      InstallFills(hash, p, t0, t, f, t', f');
    }
  }

  lemma ChangeIsFound<R>(hash: Bytes -> Bytes, p: Plan<R>, t0: Target, t: Target, f: Phase, t': Target, f': Phase)
    requires p.distribution.Written? && p.items != [] && Found(hash, p, t0, t, f) && ChangeStep(hash, p, t, f, t', f')
    ensures Found(hash, p, t0, t', f')
  {
    if Retain(hash, p, t, f, t', f') {
      RetainIsFound(hash, p, t0, t, f, t', f');
    } else if Install(hash, p, t, f, t', f') {
      InstallIsFound(hash, p, t0, t, f, t', f');
    }
  }

  ghost predicate Known<R>(hash: Bytes -> Bytes, p: Plan<R>, t0: Target, s: System<R>) {
    |s.calls| == 1 && Found(hash, p, t0, s.target, s.calls[0].phase)
  }

  lemma {:induction false} RunIsKnown<R>(hash: Bytes -> Bytes, p: Plan<R>, t0: Target, run: seq<System<R>>, n: nat)
    requires p.distribution.Written? && p.items != [] && SoloRun(hash, p, t0, run) && n < |run|
    ensures Known(hash, p, t0, run[n])
  {
    if n > 0 {
      RunIsKnown(hash, p, t0, run, n - 1);
      assert StepAt(hash, [p], run, n);
      var i: nat :| StepOf(hash, [p], run[n - 1], run[n], i);
      var t, f, t', f' := run[n - 1].target, run[n - 1].calls[0].phase, run[n].target, run[n].calls[0].phase;
      if ChangeStep(hash, p, t, f, t', f') {
        ChangeIsFound(hash, p, t0, t, f, t', f');
      }
    }
  }

  /** What a call that wrote its last file has made of the target: the distribution manifest is there, the
      items are there, complete, and nothing else has changed. */
  lemma FinishedTargetIs<R>(hash: Bytes -> Bytes, p: Plan<R>, t0: Target, run: seq<System<R>>, n: nat)
    requires p.distribution.Written? && PlanOk(p) && RootsApart(p, p)
    requires SoloRun(hash, p, t0, run) && n < |run| && |run[n].calls| == 1 && Finished(p, run[n].calls[0].phase)
    ensures var t := run[n].target;
            && t.roots == t0.roots + {p.root}
            && t.files.Keys == t0.files.Keys + {p.distribution.path} + FirstPaths(p, |p.items|)
            && StillThere(t0.files, t.files) && t.files[p.distribution.path] == p.distribution.bytes
            && forall i :: 0 <= i < |p.items| ==> Complete(hash, p.items[i], t.files[p.items[i].path])
  {
    var t := run[n].target;
    RunIsKnown(hash, p, t0, run, n);
    RunKeepsInv(hash, [p], run, n);
    assert CallOk(hash, [p][0], t, run[n].calls[0].phase);
    forall path | path in t0.files
      ensures path in t.files && t.files[path] == t0.files[path]
    {
      assert WithDistribution(p, t0.files)[path] == t0.files[path];
    }
    assert p.distribution.path in WithDistribution(p, t0.files);
  }

  // ---------------------------------------------------------------- a run that finishes

  lemma Begins<R(!new)>(hash: Bytes -> Bytes, p: Plan<R>, t0: Target)
    ensures Reaches(hash, p, t0, t0, Call(Idle, Running))
  {
    var run: seq<System<R>> := [System(t0, [Call(Idle, Running)])];
    assert SoloRun(hash, p, t0, run) && EndsAt(run, t0, Call(Idle, Running));
  }

  lemma Extends<R(!new)>(hash: Bytes -> Bytes, p: Plan<R>, t0: Target, t: Target, a: Call<R>, t': Target, a': Call<R>)
    requires Reaches(hash, p, t0, t, a) && CallStep(hash, p, t, a, t', a')
    ensures Reaches(hash, p, t0, t', a')
  {
    var run: seq<System<R>> :| SoloRun(hash, p, t0, run) && EndsAt(run, t, a);
    var next := run + [System(t', [a'])];
    forall n | 0 < n < |next|
      ensures StepAt(hash, [p], next, n)
    {
      if n < |run| {
        assert StepAt(hash, [p], run, n);
      } else {
        assert StepOf(hash, [p], next[n - 1], next[n], 0);
      }
    }
    assert SoloRun(hash, p, t0, next) && EndsAt(next, t', a');
  }

  lemma Changes<R(!new)>(hash: Bytes -> Bytes, p: Plan<R>, t0: Target, t: Target, f: Phase, t': Target, f': Phase)
    requires Reaches(hash, p, t0, t, Call(f, Running)) && ChangeStep(hash, p, t, f, t', f')
    ensures Reaches(hash, p, t0, t', Call(f', Running))
  {
    Extends(hash, p, t0, t, Call(f, Running), t', Call(f', Running));
  }

  /** The manifest is created; whether anything is in it already is another matter. */
  lemma ManifestIsCreated<R(!new)>(hash: Bytes -> Bytes, p: Plan<R>, t0: Target)
    requires Admits(p, t0) && Free(t0.files, p.distribution.path)
    ensures var made := t0.(files := t0.files[p.distribution.path := []]);
            Reaches(hash, p, t0, made, Call(Retaining(Filling(0)), Running))
  {
    var made := t0.(files := t0.files[p.distribution.path := []]);
    Begins(hash, p, t0);
    Changes(hash, p, t0, t0, Idle, t0, Checked);
    assert RetainMissing(p, t0, Checked, t0, Retaining(Creating(0)));
    Changes(hash, p, t0, t0, Checked, t0, Retaining(Creating(0)));
    assert Create([p.distribution], t0.files, Creating(0), made.files, Filling(0));
    Changes(hash, p, t0, t0, Retaining(Creating(0)), made, Retaining(Filling(0)));
  }

  lemma ManifestIsRetained<R(!new)>(hash: Bytes -> Bytes, p: Plan<R>, t0: Target)
    requires Admits(p, t0) && DistributionOk(p, t0.files)
    ensures Reaches(hash, p, t0, t0.(files := WithDistribution(p, t0.files)), Call(Rooting, Running))
  {
    var full := t0.(files := WithDistribution(p, t0.files));
    if p.distribution.path in t0.files {
      assert full.files == t0.files;
      Begins(hash, p, t0);
      Changes(hash, p, t0, t0, Idle, t0, Checked);
      Changes(hash, p, t0, t0, Checked, t0, Rooting);
    } else {
      var made := t0.(files := t0.files[p.distribution.path := []]);
      ManifestIsCreated(hash, p, t0);
      assert [] + p.distribution.bytes == p.distribution.bytes;
      assert Append([p.distribution], made.files, Filling(0), full.files, Filling(0), p.distribution.bytes);
      Changes(hash, p, t0, made, Retaining(Filling(0)), full, Retaining(Filling(0)));
      assert Finish(hash, [p.distribution], full.files, Filling(0), full.files, Creating(1));
      Changes(hash, p, t0, full, Retaining(Filling(0)), full, Retaining(Creating(1)));
      Changes(hash, p, t0, full, Retaining(Creating(1)), full, Rooting);
    }
  }

  lemma OneItem<R(!new)>(hash: Bytes -> Bytes, p: Plan<R>, t0: Target, t: Target, k: nat) returns (full: Target)
    requires k < |p.items| && Free(t.files, p.items[k].path) && Obtainable(hash, p.items[k])
    requires k + 1 == |p.items| ==> p.receiptOk
    requires Reaches(hash, p, t0, t, Call(Installing(Creating(k)), Running))
    ensures Reaches(hash, p, t0, full, Call(Installing(Creating(k + 1)), Running))
    ensures full.files.Keys == t.files.Keys + {p.items[k].path}
  {
    var item := p.items[k];
    var content: Bytes :| Complete(hash, item, content);
    var made := t.(files := t.files[item.path := []]);
    full := t.(files := t.files[item.path := content]);
    assert Create(p.items, t.files, Creating(k), made.files, Filling(k));
    Changes(hash, p, t0, t, Installing(Creating(k)), made, Installing(Filling(k)));
    assert [] + content == content;
    assert Append(p.items, made.files, Filling(k), full.files, Filling(k), content);
    Changes(hash, p, t0, made, Installing(Filling(k)), full, Installing(Filling(k)));
    assert Finish(hash, p.items, full.files, Filling(k), full.files, Creating(k + 1));
    Changes(hash, p, t0, full, Installing(Filling(k)), full, Installing(Creating(k + 1)));
  }

  lemma RootIsMade<R(!new)>(hash: Bytes -> Bytes, p: Plan<R>, t0: Target) returns (t: Target)
    requires Admits(p, t0) && DistributionOk(p, t0.files)
    ensures Reaches(hash, p, t0, t, Call(Installing(Creating(0)), Running))
    ensures t.files == WithDistribution(p, t0.files)
  {
    var retained := t0.(files := WithDistribution(p, t0.files));
    t := retained.(roots := retained.roots + {p.root});
    ManifestIsRetained(hash, p, t0);
    Changes(hash, p, t0, retained, Rooting, t, Installing(Creating(0)));
  }

  /** The next item is free beside those before it. */
  lemma NextIsFree<R>(p: Plan<R>, before: Tree, files: Tree, k: nat)
    requires p.distribution.Written? && k < |p.items| && ItemOk(p, before, k)
    requires files.Keys == WithDistribution(p, before).Keys + FirstPaths(p, k)
    ensures Free(files, p.items[k].path)
    ensures FirstPaths(p, k + 1) == FirstPaths(p, k) + {p.items[k].path}
  {
    forall other | other in files
      ensures other != p.items[k].path && !Beneath(p.items[k].path, other) && !Beneath(other, p.items[k].path)
    {
      if other in FirstPaths(p, k) {
        var j :| 0 <= j < k && p.items[j].path == other;
        assert Compatible(p.items[j].path, p.items[k].path);
      } else {
        assert other in WithDistribution(p, before);
      }
    }
  }

  lemma {:induction false} ItemsAreWritten<R(!new)>(
    hash: Bytes -> Bytes, p: Plan<R>, t0: Target, k: nat) returns (t: Target)
    requires Ready(hash, p, t0) && k <= |p.items|
    ensures Reaches(hash, p, t0, t, Call(Installing(Creating(k)), Running))
    ensures t.files.Keys == WithDistribution(p, t0.files).Keys + FirstPaths(p, k)
  {
    if k == 0 {
      t := RootIsMade(hash, p, t0);
    } else {
      var before := ItemsAreWritten(hash, p, t0, k - 1);
      assert ItemOk(p, t0.files, k - 1) && Obtainable(hash, p.items[k - 1]);
      NextIsFree(p, t0.files, before.files, k - 1);
      t := OneItem(hash, p, t0, before, k - 1);
    }
  }

  /** A call can write all of its files if and only if everything it needs is there before it. */
  lemma CanFinishExactly<R(!new)>(hash: Bytes -> Bytes, p: Plan<R>, t0: Target)
    requires p.distribution.Written? && p.items != []
    ensures CanFinish(hash, p, t0) <==> Ready(hash, p, t0)
  {
    var end := Call(Installing(Creating(|p.items|)), Running);
    if CanFinish(hash, p, t0) {
      var t: Target :| Reaches(hash, p, t0, t, end);
      var run: seq<System<R>> :| SoloRun(hash, p, t0, run) && EndsAt(run, t, end);
      RunIsKnown(hash, p, t0, run, |run| - 1);
    }
    if Ready(hash, p, t0) {
      var t := ItemsAreWritten(hash, p, t0, |p.items|);
    }
  }

  // ---------------------------------------------------------------- trying again

  /** No pack directory has been made, and the distribution manifest is missing or complete. */
  ghost predicate LeftClean<R>(p: Plan<R>, t: Target) {
    p.root !in t.roots && (p.distribution.path in t.files ==> DistributionOk(p, t.files))
  }

  /** Whatever became of a call on a target on which it could have finished, the call can be repeated
      if and only if it left the target clean. */
  lemma RepeatableExactly<R(!new)>(hash: Bytes -> Bytes, p: Plan<R>, t0: Target, run: seq<System<R>>, n: nat)
    requires p.distribution.Written? && p.items != []
    requires !Beneath(p.root, p.distribution.path) && p.distribution.path != p.root
    requires SoloRun(hash, p, t0, run) && n < |run| && Ready(hash, p, t0)
    ensures CanFinish(hash, p, run[n].target) <==> LeftClean(p, run[n].target)
  {
    var t := run[n].target;
    CanFinishExactly(hash, p, t);
    RunIsKnown(hash, p, t0, run, n);
    if LeftClean(p, t) {
      CleanIsReady(hash, p, t0, t, run[n].calls[0].phase);
    }
  }

  lemma CleanIsReady<R>(hash: Bytes -> Bytes, p: Plan<R>, t0: Target, t: Target, f: Phase)
    requires p.distribution.Written? && !Beneath(p.root, p.distribution.path) && p.distribution.path != p.root
    requires Ready(hash, p, t0) && Found(hash, p, t0, t, f) && LeftClean(p, t)
    ensures Ready(hash, p, t)
  {
    assert t == t0 || t == t0.(files := WithDistribution(p, t0.files));
    assert WithDistribution(p, t.files) == WithDistribution(p, t0.files);
  }

  // ---------------------------------------------------------------- a partial distribution manifest

  /** A call may stop when it has just created the distribution manifest, before its pack directory. */
  lemma StopsInTheManifest<R(!new)>(hash: Bytes -> Bytes, p: Plan<R>, t0: Target)
    requires Admits(p, t0) && Free(t0.files, p.distribution.path)
    ensures var left := t0.(files := t0.files[p.distribution.path := []]);
            Reaches(hash, p, t0, left, Call(Retaining(Filling(0)), Stopped))
  {
    var left := t0.(files := t0.files[p.distribution.path := []]);
    ManifestIsCreated(hash, p, t0);
    Extends(hash, p, t0, left, Call(Retaining(Filling(0)), Running), left, Call(Retaining(Filling(0)), Stopped));
  }

  /** The call has not got past the distribution manifest and has written nothing. */
  ghost predicate Early(f: Phase) {
    f.Idle? || f.Checked? || f == Retaining(Creating(0))
  }

  /** All plans keep their distribution manifest at this path, and no profile is there. */
  ghost predicate OneManifest<R>(plans: seq<Plan<R>>, path: Bytes) {
    forall i :: 0 <= i < |plans| ==>
      && plans[i].distribution.Written? && plans[i].distribution.path == path
      && (plans[i].bound < |plans[i].items| ==> plans[i].items[plans[i].bound].path != path)
  }

  predicate BeginsWith(content: Bytes, item: Item) {
    item.Written? && item.bytes <= content
  }

  /** The content does not reach as far as the manifest of any plan. */
  ghost predicate Partial<R>(plans: seq<Plan<R>>, content: Bytes) {
    forall i :: 0 <= i < |plans| ==> !BeginsWith(content, plans[i].distribution)
  }

  /** As long as the manifest is missing or partial, nobody is past it. */
  ghost predicate PartialMeansEarly<R>(plans: seq<Plan<R>>, path: Bytes, s: System<R>) {
    || (path in s.target.files && !Partial(plans, s.target.files[path]))
    || (forall i :: 0 <= i < |s.calls| ==> Early(s.calls[i].phase) || s.calls[i].phase == Retaining(Filling(0)))
  }

  lemma MoreIsNotPartial<R>(plans: seq<Plan<R>>, content: Bytes, chunk: Bytes)
    requires !Partial(plans, content)
    ensures !Partial(plans, content + chunk)
  {
    var i :| 0 <= i < |plans| && BeginsWith(content, plans[i].distribution);
    assert BeginsWith(content + chunk, plans[i].distribution);
  }

  lemma WrittenStaysWritten<R>(
    hash: Bytes -> Bytes, plans: seq<Plan<R>>, path: Bytes, p: Plan<R>, t: Target, f: Phase, t': Target, f': Phase)
    requires p in plans && OneManifest(plans, path)
    requires path in t.files && !Partial(plans, t.files[path])
    requires ChangeStep(hash, p, t, f, t', f') || Withdraw(p, t, f, t', f') || t' == t
    ensures path in t'.files && !Partial(plans, t'.files[path])
  {
    if t' != t && path in t'.files && t'.files[path] != t.files[path] {
      var chunk: Bytes :| t'.files[path] == t.files[path] + chunk;
      MoreIsNotPartial(plans, t.files[path], chunk);
    }
  }

  lemma EarlyNext<R>(
    hash: Bytes -> Bytes, plans: seq<Plan<R>>, path: Bytes, p: Plan<R>, t: Target, f: Phase, t': Target, f': Phase)
    requires p in plans && OneManifest(plans, path)
    requires path in t.files ==> Partial(plans, t.files[path])
    requires Early(f) || f == Retaining(Filling(0))
    requires ChangeStep(hash, p, t, f, t', f')
    ensures Early(f') || f' == Retaining(Filling(0))
  {
    assert [p.distribution][0] == p.distribution;
    assert path in t.files ==> t.files[path] != p.distribution.bytes;
  }

  lemma StepKeepsEarly<R>(hash: Bytes -> Bytes, plans: seq<Plan<R>>, path: Bytes, s: System<R>, s': System<R>)
    requires OneManifest(plans, path) && Next(hash, plans, s, s') && PartialMeansEarly(plans, path, s)
    ensures PartialMeansEarly(plans, path, s')
  {
    var i: nat :| StepOf(hash, plans, s, s', i);
    var t, f, t', f' := s.target, s.calls[i].phase, s'.target, s'.calls[i].phase;
    if path in t.files && !Partial(plans, t.files[path]) {
      WrittenStaysWritten(hash, plans, path, plans[i], t, f, t', f');
    } else if ChangeStep(hash, plans[i], t, f, t', f') {
      EarlyNext(hash, plans, path, plans[i], t, f, t', f');
    }
  }

  lemma {:induction false} RunKeepsEarly<R>(
    hash: Bytes -> Bytes, plans: seq<Plan<R>>, path: Bytes, run: seq<System<R>>, n: nat)
    requires OneManifest(plans, path) && IsRun(hash, plans, run) && n < |run|
    ensures PartialMeansEarly(plans, path, run[n])
  {
    if n > 0 {
      RunKeepsEarly(hash, plans, path, run, n - 1);
      assert StepAt(hash, plans, run, n);
      StepKeepsEarly(hash, plans, path, run[n - 1], run[n]);
    }
  }

  /** Call `i` stopped in the manifest, and no other call is past it. */
  ghost predicate Blocked<R>(i: nat, s: System<R>) {
    && i < |s.calls| && s.calls[i] == Call(Retaining(Filling(0)), Stopped)
    && forall j :: 0 <= j < |s.calls| && j != i ==> Early(s.calls[j].phase)
  }

  lemma BlockedStays<R>(
    hash: Bytes -> Bytes, plans: seq<Plan<R>>, path: Bytes, s: System<R>, s': System<R>, i: nat)
    requires OneManifest(plans, path) && Next(hash, plans, s, s') && Blocked(i, s)
    requires path in s.target.files && Partial(plans, s.target.files[path])
    ensures Blocked(i, s') && s'.target == s.target
  {
    var j: nat :| StepOf(hash, plans, s, s', j);
    assert j != i;
    assert !Free(s.target.files, path) && [plans[j].distribution][0].path == path;
    assert s.target.files[path] != plans[j].distribution.bytes;
  }

  lemma {:induction false} BlockedForGood<R>(
    hash: Bytes -> Bytes, plans: seq<Plan<R>>, path: Bytes, run: seq<System<R>>, m: nat, n: nat, i: nat)
    requires OneManifest(plans, path) && IsRun(hash, plans, run) && m <= n < |run| && Blocked(i, run[m])
    requires path in run[m].target.files && Partial(plans, run[m].target.files[path])
    ensures Blocked(i, run[n]) && run[n].target == run[m].target
  {
    if m < n {
      BlockedForGood(hash, plans, path, run, m, n - 1, i);
      assert StepAt(hash, plans, run, n);
      BlockedStays(hash, plans, path, run[n - 1], run[n], i);
    }
  }

  /** In any run of any number of calls: once a call has stopped with a partial manifest, no other call is
      past the manifest or ever gets past it, and the target never changes again. */
  lemma PartialManifestIsFinal<R>(
    hash: Bytes -> Bytes, plans: seq<Plan<R>>, path: Bytes, run: seq<System<R>>, m: nat, n: nat, i: nat)
    requires PlansOk(plans) && OneManifest(plans, path) && IsRun(hash, plans, run) && m <= n < |run|
    requires i < |run[m].calls| && run[m].calls[i] == Call(Retaining(Filling(0)), Stopped)
    requires path in run[m].target.files && Partial(plans, run[m].target.files[path])
    ensures Blocked(i, run[n]) && run[n].target == run[m].target
  {
    RunKeepsEarly(hash, plans, path, run, m);
    RunKeepsInv(hash, plans, run, m);
    OnlyOneFills(hash, plans, path, run[m], i);
    BlockedForGood(hash, plans, path, run, m, n, i);
  }

  lemma OnlyOneFills<R>(hash: Bytes -> Bytes, plans: seq<Plan<R>>, path: Bytes, s: System<R>, i: nat)
    requires PlansOk(plans) && OneManifest(plans, path) && CallsOk(hash, plans, s)
    requires i < |s.calls| && s.calls[i].phase == Retaining(Filling(0))
    ensures forall j :: 0 <= j < |s.calls| && j != i ==> s.calls[j].phase != Retaining(Filling(0))
  {
    forall j | 0 <= j < |s.calls| && s.calls[j].phase == Retaining(Filling(0))
      ensures path in OwnedBy(plans[j], s.calls[j].phase)
    {
      assert [plans[j].distribution][0].path == path;
    }
  }
}
