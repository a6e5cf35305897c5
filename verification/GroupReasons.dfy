/** Whether the recorded reason of a group depends on the order of the files: the collector inside
    `open_authoritative_scope_impl_bounded` in `collect-diff-context-cli/src/app.rs` records the reason of
    whichever file of a group comes first. */
module GroupReasons {
  import opened ByteStrings
  import opened Classification
  import opened ReviewScope

  function ClassesOf(c: Classifier): Classes {
    path => Classify(path, c)
  }

  ghost predicate InUse(files: seq<ChangedFile>, c: Classifier, id: Bytes) {
    FirstClass(files, ClassesOf(c), id).Some?
  }

  function ReasonOfGroup(files: seq<ChangedFile>, c: Classifier, target: nat, hard: nat, id: Bytes): Reason
    requires FirstClass(files, ClassesOf(c), id).Some?
  {
    GroupOf(files, ClassesOf(c), target, hard, id).reason
  }

  /** The first file of a group decides. */
  lemma {:induction false} FirstClassIsAMember(files: seq<ChangedFile>, c: Classifier, id: Bytes)
    ensures FirstClass(files, ClassesOf(c), id).Some? <==> exists f :: f in files && Classify(f.path, c).groupId == id
    ensures FirstClass(files, ClassesOf(c), id).Some? ==>
      exists f :: f in files && Classify(f.path, c) == FirstClass(files, ClassesOf(c), id).value
                  && Classify(f.path, c).groupId == id
  {
    if files != [] {
      assert files == [files[0]] + files[1..];
      assert files[0] in files;
      FirstClassIsAMember(files[1..], c, id);
    }
  }

  // ---------------------------------------------------------------- when order matters

  /** The group keeps its reason in whatever order the files come. */
  ghost predicate ReasonIsStable(files: seq<ChangedFile>, c: Classifier, target: nat, hard: nat, id: Bytes)
    requires InUse(files, c, id)
  {
    forall other: seq<ChangedFile> :: multiset(other) == multiset(files) && InUse(other, c, id) ==>
      ReasonOfGroup(other, c, target, hard, id) == ReasonOfGroup(files, c, target, hard, id)
  }

  predicate IsLockfile(path: Bytes, c: Classifier) {
    !c.highRisk(path) && !c.generated(path) && c.lockfile(path)
  }

  predicate IsGenerated(path: Bytes, c: Classifier) {
    !c.highRisk(path) && c.generated(path)
  }

  /** The group has a lockfile and a generated file. */
  ghost predicate Mixed(files: seq<ChangedFile>, c: Classifier, id: Bytes) {
    && (exists f :: f in files && IsLockfile(f.path, c) && Classify(f.path, c).groupId == id)
    && (exists f :: f in files && IsGenerated(f.path, c) && Classify(f.path, c).groupId == id)
  }

  lemma ReasonOfBranch(path: Bytes, c: Classifier)
    ensures Classify(path, c).reason == LockfileReason <==> IsLockfile(path, c)
    ensures Classify(path, c).reason == GeneratedReason <==> IsGenerated(path, c)
    ensures Classify(path, c).risk == Consistency <==>
            Classify(path, c).reason == LockfileReason || Classify(path, c).reason == GeneratedReason
    ensures Classify(path, c).risk != Consistency ==> Classify(path, c).reason == ReasonOf(Classify(path, c).risk)
  {
  }

  /** Two files of one group have one reason, unless one is a lockfile and the other is generated. */
  lemma ReasonsInAGroup(p: Bytes, q: Bytes, c: Classifier)
    requires Classify(p, c).groupId == Classify(q, c).groupId && Classify(p, c).reason != Classify(q, c).reason
    ensures (IsLockfile(p, c) && IsGenerated(q, c)) || (IsGenerated(p, c) && IsLockfile(q, c))
  {
    RiskIsInThePrefix(p, c);
    RiskIsInThePrefix(q, c);
    ReasonOfBranch(p, c);
    ReasonOfBranch(q, c);
  }

  lemma ToFront(files: seq<ChangedFile>, f: ChangedFile) returns (other: seq<ChangedFile>)
    requires f in files
    ensures multiset(other) == multiset(files) && other != [] && other[0] == f
  {
    var i :| 0 <= i < |files| && files[i] == f;
    other := [f] + files[..i] + files[i + 1..];
    assert files == files[..i] + [f] + files[i + 1..];
  }

  /** With a file of the group in front, the group has the reason of that file. */
  lemma FrontDecides(files: seq<ChangedFile>, c: Classifier, target: nat, hard: nat, id: Bytes)
    requires files != [] && Classify(files[0].path, c).groupId == id
    ensures InUse(files, c, id)
    ensures ReasonOfGroup(files, c, target, hard, id) == Classify(files[0].path, c).reason
  {
  }

  lemma StableWhenNotMixed(
    files: seq<ChangedFile>, other: seq<ChangedFile>, c: Classifier, target: nat, hard: nat, id: Bytes)
    requires InUse(files, c, id) && InUse(other, c, id) && multiset(other) == multiset(files) && !Mixed(files, c, id)
    ensures ReasonOfGroup(other, c, target, hard, id) == ReasonOfGroup(files, c, target, hard, id)
  {
    FirstClassIsAMember(files, c, id);
    FirstClassIsAMember(other, c, id);
    var f :| f in files && Classify(f.path, c) == FirstClass(files, ClassesOf(c), id).value
             && Classify(f.path, c).groupId == id;
    var g :| g in other && Classify(g.path, c) == FirstClass(other, ClassesOf(c), id).value
             && Classify(g.path, c).groupId == id;
    assert g in multiset(other) && g in files;
    if Classify(f.path, c).reason != Classify(g.path, c).reason {
      ReasonsInAGroup(f.path, g.path, c);
    }
  }

  lemma MixedIsNotStable(files: seq<ChangedFile>, c: Classifier, target: nat, hard: nat, id: Bytes)
    requires InUse(files, c, id) && Mixed(files, c, id)
    ensures !ReasonIsStable(files, c, target, hard, id)
  {
    var f :| f in files && IsLockfile(f.path, c) && Classify(f.path, c).groupId == id;
    var g :| g in files && IsGenerated(g.path, c) && Classify(g.path, c).groupId == id;
    var first := ToFront(files, f);
    var second := ToFront(files, g);
    FrontDecides(first, c, target, hard, id);
    FrontDecides(second, c, target, hard, id);
    ReasonOfBranch(f.path, c);
    ReasonOfBranch(g.path, c);
    assert ReasonOfGroup(first, c, target, hard, id) != ReasonOfGroup(second, c, target, hard, id);
  }

  /** A group has the same reason in every order of the files exactly when it does not have both a
      lockfile and a generated file. */
  lemma ReasonIsStableExactly(files: seq<ChangedFile>, c: Classifier, target: nat, hard: nat, id: Bytes)
    requires InUse(files, c, id)
    ensures ReasonIsStable(files, c, target, hard, id) <==> !Mixed(files, c, id)
  {
    if Mixed(files, c, id) {
      MixedIsNotStable(files, c, target, hard, id);
    } else {
      forall other: seq<ChangedFile> | multiset(other) == multiset(files) && InUse(other, c, id)
        ensures ReasonOfGroup(other, c, target, hard, id) == ReasonOfGroup(files, c, target, hard, id)
      {
        StableWhenNotMixed(files, other, c, target, hard, id);
      }
    }
  }

  const LOCKFILES: Bytes := Ascii("lockfiles")

  /** Only the group of the lockfiles can have both, and only when a generated file lies where the name of
      the group is spelled "lockfiles". */
  lemma MixedExactly(files: seq<ChangedFile>, c: Classifier, id: Bytes)
    ensures Mixed(files, c, id) <==>
            && id == LOCKFILES_GROUP
            && (exists f :: f in files && IsLockfile(f.path, c))
            && (exists f :: f in files && IsGenerated(f.path, c) && Component(f.path) == LOCKFILES)
  {
    forall path | IsGenerated(path, c)
      ensures Classify(path, c).groupId == LOCKFILES_GROUP <==> Component(path) == LOCKFILES
    {
      GeneratedInLockfiles(path, c);
    }
  }

  lemma GeneratedInLockfiles(path: Bytes, c: Classifier)
    requires IsGenerated(path, c)
    ensures Classify(path, c).groupId == LOCKFILES_GROUP <==> Component(path) == LOCKFILES
  {
    var n := |CONSISTENCY_PREFIX|;
    assert LOCKFILES_GROUP == CONSISTENCY_PREFIX + LOCKFILES;
    assert (CONSISTENCY_PREFIX + Component(path))[n..] == Component(path);
    assert LOCKFILES_GROUP[n..] == LOCKFILES;
  }

  /** For example two files, one of them generated below a directory called "lockfiles": the two orders
      give the group different reasons. */
  lemma LockfileReasonDependsOnOrder(f: ChangedFile, g: ChangedFile, c: Classifier, target: nat, hard: nat)
    requires f.path == Ascii("lockfiles") + [SLASH] + Ascii("dist") && IsGenerated(f.path, c)
    requires g.path == Ascii("go.sum") && IsLockfile(g.path, c)
    ensures InUse([f, g], c, LOCKFILES_GROUP) && InUse([g, f], c, LOCKFILES_GROUP)
    ensures ReasonOfGroup([f, g], c, target, hard, LOCKFILES_GROUP) == GeneratedReason
    ensures ReasonOfGroup([g, f], c, target, hard, LOCKFILES_GROUP) == LockfileReason
  {
    LockfileReasonsDiffer(c);
    FrontDecides([f, g], c, target, hard, LOCKFILES_GROUP);
    FrontDecides([g, f], c, target, hard, LOCKFILES_GROUP);
  }
}
