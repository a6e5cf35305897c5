/** Publishing packs into the content-addressed cache: `publish_cache` and `open_cache` in
    `collect-diff-context-cli/src/artifacts/cache.rs`, as the steps of any number of publishers of any
    digests. A publisher may fail or crash at every step. */
module CachePublish {
  import opened ByteStrings
  import opened PackRecords
  import opened FileTrees
  import opened CacheEntry

  datatype Status = Published | Reused

  datatype Phase =
    | Idle
    | Looking
    | Staging(id: nat, progress: Progress)
    | Opening(status: Status, guard: Option<nat>)
    | Done(status: Status, receipt: CacheReceipt)
    | Failed
    | Crashed

  /** The directory of published entries, by digest, and the staging directories beside it; `names` are
      the names of staging directories that have been given out. */
  datatype Cache = Cache(entries: map<Bytes, Tree>, staging: map<nat, Tree>, names: set<nat>)

  datatype System = System(cache: Cache, phases: seq<Phase>)

  /** What the steps take as given: the files to stage, and the checks. */
  datatype Protocol = Protocol(
    hash: Bytes -> Bytes, admits: Job -> bool, items: Job -> seq<Item>, receipt: Job -> CacheReceipt,
    receiptOk: Job -> bool, validate: (Tree, PackRecord) -> Option<CacheReceipt>)

  function ProtocolOf(c: Codec): Protocol {
    Protocol(c.hash, job => Admitted(c, job), job => StagedItems(c, job), ReceiptOf,
             job => CacheReceiptOk(c, ReceiptOf(job), job.pack.manifest, job.record),
             (tree, r) => ValidateEntry(c, tree, r))
  }

  ghost predicate Staged(k: Protocol, job: Job, tree: Tree) {
    && k.admits(job) && k.receiptOk(job) && |k.items(job)| > 0
    && InPlace(k.hash, k.items(job), Creating(|k.items(job)|), tree)
    && tree.Keys == Owned(k.items(job), Creating(|k.items(job)|))
  }

  /** A finished staging directory validates and gives back the publisher's receipt, and an empty
      directory does not validate. */
  ghost predicate Sound(k: Protocol, jobs: seq<Job>) {
    && (forall i, tree: Tree :: 0 <= i < |jobs| && Staged(k, jobs[i], tree) ==>
          k.validate(tree, jobs[i].record) == Some(k.receipt(jobs[i])))
    && (forall i :: 0 <= i < |jobs| ==> |k.items(jobs[i])| > 0)
    && (forall r :: k.validate(map[], r) == None)
  }

  lemma EmptyDoesNotValidate(c: Codec, r: PackRecord)
    ensures ValidateEntry(c, map[], r) == None
  {
  }

  lemma ProtocolIsSound(c: Codec, jobs: seq<Job>)
    requires Faithful(c) && forall i :: 0 <= i < |jobs| ==> Verified(c, jobs[i].pack)
    ensures Sound(ProtocolOf(c), jobs)
  {
    var k := ProtocolOf(c);
    forall r
      ensures k.validate(map[], r) == None
    {
      EmptyDoesNotValidate(c, r);
    }
    forall i, tree: Tree | 0 <= i < |jobs| && Staged(k, jobs[i], tree)
      ensures k.validate(tree, jobs[i].record) == Some(k.receipt(jobs[i]))
    {
      StagedEntryValidates(c, jobs[i], tree);
    }
  }

  // ---------------------------------------------------------------- steps of one publisher

  ghost predicate Begin(k: Protocol, job: Job, s: Cache, p: Phase, s': Cache, p': Phase) {
    p.Idle? && s' == s && p' == if k.admits(job) then Looking else Failed
  }

  ghost predicate LookFound(job: Job, s: Cache, p: Phase, s': Cache, p': Phase) {
    p.Looking? && job.record.packSha256 in s.entries && s' == s && p' == Opening(Reused, None)
  }

  /** The staging directory gets a name that nothing in the cache has or had. */
  ghost predicate LookMissing(job: Job, s: Cache, p: Phase, s': Cache, p': Phase) {
    && p.Looking? && job.record.packSha256 !in s.entries
    && p'.Staging? && p'.id !in s.staging && p'.id !in s.names && p'.progress == Creating(0)
    && s' == s.(staging := s.staging[p'.id := map[]], names := s.names + {p'.id})
  }

  /** The receipt is checked before it is written. */
  ghost predicate Stage(k: Protocol, job: Job, s: Cache, p: Phase, s': Cache, p': Phase) {
    && p.Staging? && p.id in s.staging
    && p'.Staging? && p'.id == p.id
    && (p.progress.Creating? && p.progress.next + 1 == |k.items(job)| ==> k.receiptOk(job))
    && s'.entries == s.entries && s'.names == s.names
    && s'.staging.Keys == s.staging.Keys
    && (forall id :: id in s.staging && id != p.id ==> s'.staging[id] == s.staging[id])
    && FileStep(k.hash, k.items(job), s.staging[p.id], p.progress, s'.staging[p.id], p'.progress)
  }

  ghost predicate StagingDone(k: Protocol, job: Job, p: Phase) {
    p.Staging? && p.progress == Creating(|k.items(job)|)
  }

  /** The name that the publisher's guard removes when the call returns. */
  function NameOf(p: Phase): Option<nat> {
    match p
    case Staging(id, _) => Some(id)
    case Opening(_, guard) => guard
    case _ => None
  }

  function DropGuard(s: Cache, p: Phase): Cache {
    match NameOf(p)
    case None => s
    case Some(id) => s.(staging := s.staging - {id})
  }

  /** A directory can only be renamed onto nothing or onto an empty directory. The guard still has the old
      name. */
  ghost predicate Rename(k: Protocol, job: Job, s: Cache, p: Phase, s': Cache, p': Phase) {
    var digest := job.record.packSha256;
    && StagingDone(k, job, p) && p.id in s.staging
    && (digest in s.entries ==> s.entries[digest] == map[])
    && s' == s.(entries := s.entries[digest := s.staging[p.id]], staging := s.staging - {p.id})
    && p' == Opening(Published, Some(p.id))
  }

  /** The rename failed, for whatever reason. */
  ghost predicate RenameRefused(k: Protocol, job: Job, s: Cache, p: Phase, s': Cache, p': Phase) {
    && StagingDone(k, job, p)
    && if job.record.packSha256 in s.entries then s' == s && p' == Opening(Reused, Some(p.id))
       else s' == DropGuard(s, p) && p' == Failed
  }

  ghost predicate Open(k: Protocol, job: Job, s: Cache, p: Phase, s': Cache, p': Phase) {
    && p.Opening? && s' == DropGuard(s, p)
    && p' == if job.record.packSha256 !in s.entries then Failed
             else
               match k.validate(s.entries[job.record.packSha256], job.record)
               case None => Failed
               case Some(receipt) => Done(p.status, receipt)
  }

  /** An error of the operating system. */
  ghost predicate Fail(s: Cache, p: Phase, s': Cache, p': Phase) {
    !p.Done? && !p.Crashed? && s' == DropGuard(s, p) && p' == Failed
  }

  ghost predicate Crash(s: Cache, p: Phase, s': Cache, p': Phase) {
    !p.Done? && s' == s && p' == Crashed
  }

  /** The steps that change nothing but the publisher's own phase. */
  ghost predicate QuietStep(k: Protocol, job: Job, s: Cache, p: Phase, s': Cache, p': Phase) {
    || Begin(k, job, s, p, s', p')
    || LookFound(job, s, p, s', p')
    || Crash(s, p, s', p')
  }

  /** The steps that end the call or give way to another publisher. */
  ghost predicate Leave(k: Protocol, job: Job, s: Cache, p: Phase, s': Cache, p': Phase) {
    RenameRefused(k, job, s, p, s', p') || Open(k, job, s, p, s', p') || Fail(s, p, s', p')
  }

  ghost predicate PublisherStep(k: Protocol, job: Job, s: Cache, p: Phase, s': Cache, p': Phase) {
    || QuietStep(k, job, s, p, s', p')
    || LookMissing(job, s, p, s', p')
    || Stage(k, job, s, p, s', p')
    || Rename(k, job, s, p, s', p')
    || Leave(k, job, s, p, s', p')
  }

  ghost predicate StepOf(k: Protocol, jobs: seq<Job>, s: System, s': System, i: nat) {
    && i < |jobs| && |s.phases| == |s'.phases| == |jobs|
    && PublisherStep(k, jobs[i], s.cache, s.phases[i], s'.cache, s'.phases[i])
    && s'.phases == s.phases[i := s'.phases[i]]
  }

  ghost predicate Next(k: Protocol, jobs: seq<Job>, s: System, s': System) {
    exists i: nat :: StepOf(k, jobs, s, s', i)
  }

  /** The publishers start on any cache. */
  ghost predicate Init(k: Protocol, jobs: seq<Job>, s: System) {
    |s.phases| == |jobs| && forall i :: 0 <= i < |jobs| ==> s.phases[i] == Idle
  }

  // ---------------------------------------------------------------- what one publisher keeps

  ghost predicate StagedSoFar(k: Protocol, job: Job, s: Cache, p: Phase)
    requires p.Staging?
  {
    && p.id in s.staging
    && InPlace(k.hash, k.items(job), p.progress, s.staging[p.id])
    && s.staging[p.id].Keys == Owned(k.items(job), p.progress)
    && (p.progress.next + (if p.progress.Filling? then 1 else 0) >= |k.items(job)| ==> k.receiptOk(job))
  }

  /** The publisher put the entry there. */
  predicate HasPublished(p: Phase) {
    (p.Opening? || p.Done?) && p.status == Published
  }

  ghost predicate Holds(k: Protocol, job: Job, s: Cache, receipt: CacheReceipt) {
    && job.record.packSha256 in s.entries
    && k.validate(s.entries[job.record.packSha256], job.record) == Some(receipt)
  }

  /** `before` are the digests of the entries that were there before the run. A publisher that stages has
      not found its entry, and the guard of one that has published has nothing to remove. */
  ghost predicate PublisherOk(k: Protocol, job: Job, before: set<Bytes>, s: Cache, p: Phase) {
    && (!p.Idle? && !p.Failed? && !p.Crashed? ==> k.admits(job))
    && (p.Staging? ==> job.record.packSha256 !in before && StagedSoFar(k, job, s, p))
    && (NameOf(p).Some? ==> NameOf(p).value in s.names)
    && (p.Opening? && p.status == Published && p.guard.Some? ==> p.guard.value !in s.staging)
    && (HasPublished(p) ==> Holds(k, job, s, k.receipt(job)))
    && (p.Done? ==> Holds(k, job, s, p.receipt))
  }

  /** Entries never change and never go away. */
  ghost predicate EntriesKept(s: Cache, s': Cache) {
    forall digest :: digest in s.entries ==> digest in s'.entries && s'.entries[digest] == s.entries[digest]
  }

  /** The staging directories of others stay, and new ones have new names. */
  ghost predicate StagingKept(s: Cache, s': Cache, except: Phase) {
    && (forall id :: id in s.staging && NameOf(except) != Some(id) ==>
          id in s'.staging && s'.staging[id] == s.staging[id])
    && (forall id :: id in s.names && id in s'.staging ==> id in s.staging)
    && s.names <= s'.names
  }

  ghost predicate EntryComplete(k: Protocol, jobs: seq<Job>, digest: Bytes, tree: Tree) {
    exists i :: 0 <= i < |jobs| && jobs[i].record.packSha256 == digest && k.validate(tree, jobs[i].record).Some?
  }

  ghost predicate NewComplete(k: Protocol, jobs: seq<Job>, before: set<Bytes>, s: Cache) {
    && before <= s.entries.Keys
    && forall digest :: digest in s.entries && digest !in before ==> EntryComplete(k, jobs, digest, s.entries[digest])
  }

  /** Every new entry holds a receipt, so a rename never replaces one. */
  lemma CompleteIsNotEmpty(k: Protocol, jobs: seq<Job>, digest: Bytes, tree: Tree)
    requires Sound(k, jobs) && EntryComplete(k, jobs, digest, tree)
    ensures tree != map[]
  {
  }

  lemma OneMoreComplete(k: Protocol, jobs: seq<Job>, before: set<Bytes>, s: Cache, s': Cache, i: nat, tree: Tree)
    requires i < |jobs| && k.validate(tree, jobs[i].record).Some?
    requires NewComplete(k, jobs, before, s) && s'.entries == s.entries[jobs[i].record.packSha256 := tree]
    ensures NewComplete(k, jobs, before, s')
  {
    assert EntryComplete(k, jobs, jobs[i].record.packSha256, tree);
  }

  /** What a publisher guarantees with each of its steps. */
  ghost predicate Guarantee(
    k: Protocol, jobs: seq<Job>, before: set<Bytes>, i: nat, s: Cache, p: Phase, s': Cache, p': Phase)
    requires i < |jobs|
  {
    && PublisherOk(k, jobs[i], before, s', p') && NewComplete(k, jobs, before, s')
    && EntriesKept(s, s') && StagingKept(s, s', p)
    && (NameOf(p').Some? ==> NameOf(p').value !in s.names || NameOf(p') == NameOf(p))
    && (HasPublished(p') ==> HasPublished(p) || jobs[i].record.packSha256 !in s.entries)
  }

  lemma RenameGuarantees(
    k: Protocol, jobs: seq<Job>, before: set<Bytes>, i: nat, s: Cache, p: Phase, s': Cache, p': Phase)
    requires Sound(k, jobs) && i < |jobs| && NewComplete(k, jobs, before, s)
    requires PublisherOk(k, jobs[i], before, s, p) && Rename(k, jobs[i], s, p, s', p')
    ensures Guarantee(k, jobs, before, i, s, p, s', p')
  {
    var digest := jobs[i].record.packSha256;
    if digest in s.entries {
      CompleteIsNotEmpty(k, jobs, digest, s.entries[digest]);
    }
    assert Staged(k, jobs[i], s.staging[p.id]);
    OneMoreComplete(k, jobs, before, s, s', i, s.staging[p.id]);
  }

  lemma QuietPhase(k: Protocol, job: Job, before: set<Bytes>, s: Cache, p: Phase, s': Cache, p': Phase)
    requires PublisherOk(k, job, before, s, p) && QuietStep(k, job, s, p, s', p')
    ensures s' == s && PublisherOk(k, job, before, s, p') && NameOf(p').None?
    ensures HasPublished(p') ==> HasPublished(p)
  {
  }

  lemma QuietStepGuarantees(
    k: Protocol, jobs: seq<Job>, before: set<Bytes>, i: nat, s: Cache, p: Phase, s': Cache, p': Phase)
    requires i < |jobs| && NewComplete(k, jobs, before, s)
    requires PublisherOk(k, jobs[i], before, s, p) && QuietStep(k, jobs[i], s, p, s', p')
    ensures Guarantee(k, jobs, before, i, s, p, s', p')
  {
    QuietPhase(k, jobs[i], before, s, p, s', p');
  }

  lemma LookMissingGuarantees(
    k: Protocol, jobs: seq<Job>, before: set<Bytes>, i: nat, s: Cache, p: Phase, s': Cache, p': Phase)
    requires Sound(k, jobs) && i < |jobs| && NewComplete(k, jobs, before, s)
    requires PublisherOk(k, jobs[i], before, s, p) && LookMissing(jobs[i], s, p, s', p')
    ensures Guarantee(k, jobs, before, i, s, p, s', p')
  {
  }

  lemma LeavingPhase(k: Protocol, job: Job, before: set<Bytes>, s: Cache, p: Phase, s': Cache, p': Phase)
    requires PublisherOk(k, job, before, s, p) && Leave(k, job, s, p, s', p')
    ensures s'.entries == s.entries && StagingKept(s, s', p) && PublisherOk(k, job, before, s', p')
    ensures NameOf(p').Some? ==> NameOf(p') == NameOf(p)
    ensures HasPublished(p') ==> HasPublished(p)
  {
  }

  lemma LeaveGuarantees(
    k: Protocol, jobs: seq<Job>, before: set<Bytes>, i: nat, s: Cache, p: Phase, s': Cache, p': Phase)
    requires i < |jobs| && NewComplete(k, jobs, before, s)
    requires PublisherOk(k, jobs[i], before, s, p) && Leave(k, jobs[i], s, p, s', p')
    ensures Guarantee(k, jobs, before, i, s, p, s', p')
  {
    LeavingPhase(k, jobs[i], before, s, p, s', p');
  }

  lemma StageGuarantees(
    k: Protocol, jobs: seq<Job>, before: set<Bytes>, i: nat, s: Cache, p: Phase, s': Cache, p': Phase)
    requires i < |jobs| && NewComplete(k, jobs, before, s)
    requires PublisherOk(k, jobs[i], before, s, p) && Stage(k, jobs[i], s, p, s', p')
    ensures Guarantee(k, jobs, before, i, s, p, s', p')
  {
    var job := jobs[i];
    StepKeepsInPlace(k.hash, k.items(job), s.staging[p.id], p.progress, s'.staging[p.id], p'.progress);
    assert p'.progress.next <= |k.items(job)|;
  }

  lemma StepGuarantees(
    k: Protocol, jobs: seq<Job>, before: set<Bytes>, i: nat, s: Cache, p: Phase, s': Cache, p': Phase)
    requires Sound(k, jobs) && i < |jobs| && NewComplete(k, jobs, before, s)
    requires PublisherOk(k, jobs[i], before, s, p) && PublisherStep(k, jobs[i], s, p, s', p')
    ensures Guarantee(k, jobs, before, i, s, p, s', p')
  {
    if Stage(k, jobs[i], s, p, s', p') {
      StageGuarantees(k, jobs, before, i, s, p, s', p');
    } else if Rename(k, jobs[i], s, p, s', p') {
      RenameGuarantees(k, jobs, before, i, s, p, s', p');
    } else if LookMissing(jobs[i], s, p, s', p') {
      LookMissingGuarantees(k, jobs, before, i, s, p, s', p');
    } else if Leave(k, jobs[i], s, p, s', p') {
      LeaveGuarantees(k, jobs, before, i, s, p, s', p');
    } else {
      QuietStepGuarantees(k, jobs, before, i, s, p, s', p');
    }
  }

  /** What a publisher may rely on while others step. */
  lemma OthersKeep(k: Protocol, job: Job, before: set<Bytes>, s: Cache, s': Cache, p: Phase, other: Phase)
    requires PublisherOk(k, job, before, s, p) && EntriesKept(s, s') && StagingKept(s, s', other)
    requires NameOf(p).Some? ==> NameOf(p) != NameOf(other)
    ensures PublisherOk(k, job, before, s', p)
  {
  }

  // ---------------------------------------------------------------- the invariant of the system

  /** Two publishers never share the name of a staging directory, and have not both published the same
      digest. */
  ghost predicate Distinguished(a: Job, p: Phase, b: Job, q: Phase) {
    && (NameOf(p).Some? ==> NameOf(p) != NameOf(q))
    && (HasPublished(p) && HasPublished(q) ==> a.record.packSha256 != b.record.packSha256)
  }

  lemma StaysDistinguished(
    k: Protocol, jobs: seq<Job>, before: set<Bytes>, i: nat, s: Cache, p: Phase, s': Cache, p': Phase, other: Job,
    q: Phase)
    requires i < |jobs| && Guarantee(k, jobs, before, i, s, p, s', p')
    requires PublisherOk(k, other, before, s, q) && Distinguished(jobs[i], p, other, q)
    ensures Distinguished(jobs[i], p', other, q)
  {
  }

  ghost predicate Inv(k: Protocol, jobs: seq<Job>, before: set<Bytes>, s: System) {
    && |s.phases| == |jobs|
    && (forall i :: 0 <= i < |jobs| ==> PublisherOk(k, jobs[i], before, s.cache, s.phases[i]))
    && NewComplete(k, jobs, before, s.cache)
    && (forall i, j :: 0 <= i < |jobs| && 0 <= j < |jobs| && i != j ==>
          Distinguished(jobs[i], s.phases[i], jobs[j], s.phases[j]))
  }

  lemma StepKeepsInv(k: Protocol, jobs: seq<Job>, before: set<Bytes>, s: System, s': System)
    requires Sound(k, jobs) && Inv(k, jobs, before, s) && Next(k, jobs, s, s')
    ensures Inv(k, jobs, before, s') && EntriesKept(s.cache, s'.cache)
  {
    var i: nat :| StepOf(k, jobs, s, s', i);
    var p, p' := s.phases[i], s'.phases[i];
    StepGuarantees(k, jobs, before, i, s.cache, p, s'.cache, p');
    forall j | 0 <= j < |jobs| && j != i
      ensures PublisherOk(k, jobs[j], before, s'.cache, s'.phases[j])
      ensures Distinguished(jobs[i], p', jobs[j], s'.phases[j])
    {
      assert Distinguished(jobs[i], p, jobs[j], s.phases[j]);
      OthersKeep(k, jobs[j], before, s.cache, s'.cache, s.phases[j], p);
      StaysDistinguished(k, jobs, before, i, s.cache, p, s'.cache, p', jobs[j], s.phases[j]);
    }
  }

  // ---------------------------------------------------------------- runs

  /** Any interleaving of any number of publishers, with failures and crashes anywhere. */
  ghost predicate IsRun(k: Protocol, jobs: seq<Job>, run: seq<System>) {
    && run != [] && Init(k, jobs, run[0])
    && forall n :: 0 <= n < |run| - 1 ==> Next(k, jobs, run[n], run[n + 1])
  }

  lemma {:induction false} RunKeepsInv(k: Protocol, jobs: seq<Job>, run: seq<System>, n: nat)
    requires Sound(k, jobs) && IsRun(k, jobs, run) && n < |run|
    ensures forall m :: 0 <= m <= n ==> Inv(k, jobs, run[0].cache.entries.Keys, run[m])
  {
    if n > 0 {
      RunKeepsInv(k, jobs, run, n - 1);
      assert Next(k, jobs, run[n - 1], run[n - 1 + 1]);
      StepKeepsInv(k, jobs, run[0].cache.entries.Keys, run[n - 1], run[n]);
    }
  }

  lemma EntriesKeptTwice(s: Cache, t: Cache, u: Cache)
    requires EntriesKept(s, t) && EntriesKept(t, u)
    ensures EntriesKept(s, u)
  {
  }

  lemma StepKeepsEntries(k: Protocol, jobs: seq<Job>, run: seq<System>, n: nat)
    requires Sound(k, jobs) && IsRun(k, jobs, run) && 0 < n < |run|
    ensures EntriesKept(run[n - 1].cache, run[n].cache)
  {
    RunKeepsInv(k, jobs, run, n - 1);
    assert Next(k, jobs, run[n - 1], run[n - 1 + 1]);
    StepKeepsInv(k, jobs, run[0].cache.entries.Keys, run[n - 1], run[n]);
  }

  /** Once an entry is visible it never changes. */
  lemma {:induction false} EntriesAreFinal(k: Protocol, jobs: seq<Job>, run: seq<System>, m: nat, n: nat)
    requires Sound(k, jobs) && IsRun(k, jobs, run) && m <= n < |run|
    ensures EntriesKept(run[m].cache, run[n].cache)
  {
    if m < n {
      EntriesAreFinal(k, jobs, run, m, n - 1);
      StepKeepsEntries(k, jobs, run, n);
      EntriesKeptTwice(run[m].cache, run[n - 1].cache, run[n].cache);
    }
  }

  /** A publisher that has reported does nothing more. */
  lemma {:induction false} DoneIsFinal(k: Protocol, jobs: seq<Job>, run: seq<System>, m: nat, n: nat, i: nat)
    requires IsRun(k, jobs, run) && m <= n < |run|
    requires i < |run[m].phases| && run[m].phases[i].Done?
    ensures i < |run[n].phases| && run[n].phases[i] == run[m].phases[i]
  {
    if m < n {
      DoneIsFinal(k, jobs, run, m, n - 1, i);
      assert Next(k, jobs, run[n - 1], run[n - 1 + 1]);
    }
  }

  /** At every moment an entry is absent, or complete for the record of some publisher of its digest, unless
      it was there before the run and was not. */
  lemma EntriesAreComplete(k: Protocol, jobs: seq<Job>, run: seq<System>, n: nat, digest: Bytes)
    requires Sound(k, jobs) && IsRun(k, jobs, run) && n < |run|
    requires digest in run[n].cache.entries
    requires digest in run[0].cache.entries ==> EntryComplete(k, jobs, digest, run[0].cache.entries[digest])
    ensures EntryComplete(k, jobs, digest, run[n].cache.entries[digest])
  {
    RunKeepsInv(k, jobs, run, n);
    EntriesAreFinal(k, jobs, run, 0, n);
  }

  ghost predicate Reports(s: System, i: nat, status: Status) {
    i < |s.phases| && s.phases[i].Done? && s.phases[i].status == status
  }

  /** Of all the publishers of one digest, at most one reports that it published, at whatever times
      they report. */
  lemma AtMostOnePublishes(k: Protocol, jobs: seq<Job>, run: seq<System>, m: nat, n: nat, i: nat, j: nat)
    requires Sound(k, jobs) && IsRun(k, jobs, run) && m <= n < |run| && i < |jobs| && j < |jobs| && i != j
    requires Reports(run[m], i, Published) && Reports(run[n], j, Published)
    ensures jobs[i].record.packSha256 != jobs[j].record.packSha256
  {
    DoneIsFinal(k, jobs, run, m, n, i);
    RunKeepsInv(k, jobs, run, n);
    assert Distinguished(jobs[i], run[n].phases[i], jobs[j], run[n].phases[j]);
  }

  /** A success gives a receipt that the entry still holds at every later time, and that passed the
      whole validation against the caller's own record. */
  lemma SuccessIsValidated(k: Protocol, jobs: seq<Job>, run: seq<System>, m: nat, n: nat, i: nat)
    requires Sound(k, jobs) && IsRun(k, jobs, run) && m <= n < |run| && i < |jobs|
    requires |run[m].phases| == |jobs| && run[m].phases[i].Done?
    ensures Holds(k, jobs[i], run[n].cache, run[m].phases[i].receipt)
  {
    RunKeepsInv(k, jobs, run, m);
    EntriesAreFinal(k, jobs, run, m, n);
  }

  /** A publisher whose rename succeeded opens its own entry: the validation cannot fail. */
  lemma PublishedOpens(k: Protocol, jobs: seq<Job>, run: seq<System>, n: nat, i: nat, s': Cache, p': Phase)
    requires Sound(k, jobs) && IsRun(k, jobs, run) && n < |run| && i < |jobs|
    requires |run[n].phases| == |jobs| && HasPublished(run[n].phases[i]) && run[n].phases[i].Opening?
    requires Open(k, jobs[i], run[n].cache, run[n].phases[i], s', p')
    ensures p' == Done(Published, k.receipt(jobs[i]))
  {
    RunKeepsInv(k, jobs, run, n);
  }

  /** The guard of a publisher whose rename succeeded removes nothing. */
  lemma GuardRemovesNothing(k: Protocol, jobs: seq<Job>, run: seq<System>, n: nat, i: nat)
    requires Sound(k, jobs) && IsRun(k, jobs, run) && n < |run| && i < |jobs|
    requires |run[n].phases| == |jobs| && HasPublished(run[n].phases[i])
    ensures DropGuard(run[n].cache, run[n].phases[i]) == run[n].cache
  {
    RunKeepsInv(k, jobs, run, n);
  }

  ghost predicate BothPublished(s: System, i: nat, t: System, j: nat) {
    Reports(s, i, Published) && Reports(t, j, Published)
  }

  /** The same four statements about the program's own checks, encodings and staged files. */
  lemma PublishingIsSafe(c: Codec, jobs: seq<Job>, run: seq<System>, m: nat, n: nat)
    requires Faithful(c) && forall i :: 0 <= i < |jobs| ==> Verified(c, jobs[i].pack)
    requires IsRun(ProtocolOf(c), jobs, run) && m <= n < |run|
    ensures EntriesKept(run[m].cache, run[n].cache)
    ensures forall digest :: digest in run[n].cache.entries && digest !in run[0].cache.entries ==>
              EntryComplete(ProtocolOf(c), jobs, digest, run[n].cache.entries[digest])
    ensures forall i, j :: 0 <= i < |jobs| && 0 <= j < |jobs| && i != j && BothPublished(run[m], i, run[n], j) ==>
              jobs[i].record.packSha256 != jobs[j].record.packSha256
    ensures forall i :: 0 <= i < |jobs| && i < |run[m].phases| && run[m].phases[i].Done? ==>
              && jobs[i].record.packSha256 in run[n].cache.entries
              && ValidateEntry(c, run[n].cache.entries[jobs[i].record.packSha256], jobs[i].record)
                 == Some(run[m].phases[i].receipt)
  {
    var k := ProtocolOf(c);
    ProtocolIsSound(c, jobs);
    EntriesAreFinal(k, jobs, run, m, n);
    RunKeepsInv(k, jobs, run, n);
    forall i, j | 0 <= i < |jobs| && 0 <= j < |jobs| && i != j && BothPublished(run[m], i, run[n], j)
      ensures jobs[i].record.packSha256 != jobs[j].record.packSha256
    {
      AtMostOnePublishes(k, jobs, run, m, n, i, j);
    }
    forall i | 0 <= i < |jobs| && i < |run[m].phases| && run[m].phases[i].Done?
      ensures Holds(k, jobs[i], run[n].cache, run[m].phases[i].receipt)
    {
      RunKeepsInv(k, jobs, run, m);
      SuccessIsValidated(k, jobs, run, m, n, i);
    }
  }
}
