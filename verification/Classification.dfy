/** Risk classification of changed paths: the branches of
    `open_authoritative_scope_impl_bounded` in `collect-diff-context-cli/src/app.rs`. */
module Classification {
  import opened ByteStrings
  import opened GitPaths

  datatype Risk = High | Consistency | Medium

  datatype Tag = HighRiskTag | GeneratedLike | Lockfile | MediumTag

  datatype Reason = PathOrContentRisk | GeneratedReason | LockfileReason | ModuleReason

  /** How one path is shown, tagged and grouped. */
  datatype PathClass = PathClass(display: Bytes, tag: Tag, groupId: Bytes, risk: Risk, reason: Reason)

  /** The regular expressions of the program, as arbitrary predicates on paths. */
  datatype Classifier = Classifier(highRisk: Bytes -> bool, generated: Bytes -> bool, lockfile: Bytes -> bool)

  const HIGH_RISK_PREFIX: Bytes := Ascii("high-risk-")
  const CONSISTENCY_PREFIX: Bytes := Ascii("consistency-")
  const MODULE_PREFIX: Bytes := Ascii("module-")
  const LOCKFILES_GROUP: Bytes := Ascii("consistency-lockfiles")
  const HYPHEN: byte := 45

  predicate IsSchemaDirectory(part: Bytes) {
    part == Ascii("migration") || part == Ascii("migrations") || part == Ascii("schema") || part == Ascii("schemas")
  }

  function GroupComponent(path: Bytes): Bytes {
    var parts := Split(path, SLASH);
    if |parts| >= 2 then
      if IsSchemaDirectory(parts[1]) then parts[0] + [HYPHEN] + parts[1] else parts[0]
    else path
  }

  /** Display paths are ASCII, so the characters of a component are its bytes. */
  function SafeComponent(s: Bytes): Bytes {
    seq(|s|, i requires 0 <= i < |s| => if NameByte(s[i]) then s[i] else UNDERSCORE)
  }

  function Component(path: Bytes): Bytes {
    SafeComponent(GroupComponent(QuoteGitPath(path)))
  }

  function Classify(path: Bytes, c: Classifier): PathClass {
    var display := QuoteGitPath(path);
    if c.highRisk(path) then
      PathClass(display, HighRiskTag, HIGH_RISK_PREFIX + Component(path), High, PathOrContentRisk)
    else if c.generated(path) then
      PathClass(display, GeneratedLike, CONSISTENCY_PREFIX + Component(path), Consistency, GeneratedReason)
    else if c.lockfile(path) then PathClass(display, Lockfile, LOCKFILES_GROUP, Consistency, LockfileReason)
    else PathClass(display, MediumTag, MODULE_PREFIX + Component(path), Medium, ModuleReason)
  }

  /** The risk that a group id spells. */
  function RiskOf(groupId: Bytes): Risk {
    if HIGH_RISK_PREFIX <= groupId then High
    else if CONSISTENCY_PREFIX <= groupId then Consistency
    else Medium
  }

  lemma PrefixesDiffer()
    ensures HIGH_RISK_PREFIX != [] && CONSISTENCY_PREFIX != [] && MODULE_PREFIX != []
    ensures CONSISTENCY_PREFIX[0] != HIGH_RISK_PREFIX[0] && MODULE_PREFIX[0] != HIGH_RISK_PREFIX[0]
    ensures MODULE_PREFIX[0] != CONSISTENCY_PREFIX[0]
    ensures CONSISTENCY_PREFIX <= LOCKFILES_GROUP
  {
  }

  /** The risk of a path's group is fixed by the prefix of the group id, and the path is tagged
      high-risk exactly in a high-risk group. So the recorded risk of a group cannot depend on
      which of its files came first. */
  lemma RiskIsInThePrefix(path: Bytes, c: Classifier)
    ensures Classify(path, c).risk == RiskOf(Classify(path, c).groupId)
    ensures Classify(path, c).tag == HighRiskTag <==> Classify(path, c).risk == High
  {
    PrefixesDiffer();
    var id := Classify(path, c).groupId;
    assert HIGH_RISK_PREFIX <= id ==> id[0] == HIGH_RISK_PREFIX[0];
    assert CONSISTENCY_PREFIX <= id ==> id[0] == CONSISTENCY_PREFIX[0];
    assert MODULE_PREFIX <= id ==> id[0] == MODULE_PREFIX[0];
  }

  /** The reason that a group id spells, other than that of the lockfiles. */
  function ReasonOf(risk: Risk): Reason {
    match risk
    case High => PathOrContentRisk
    case Consistency => GeneratedReason
    case Medium => ModuleReason
  }

  lemma ReasonIsInTheRisk(path: Bytes, c: Classifier)
    ensures Classify(path, c).groupId != LOCKFILES_GROUP ==>
              Classify(path, c).reason == ReasonOf(Classify(path, c).risk)
  {
  }

  /** Nor can the recorded reason, except in the lockfile group. */
  lemma ReasonIsFixed(p: Bytes, q: Bytes, c: Classifier)
    requires Classify(p, c).groupId == Classify(q, c).groupId != LOCKFILES_GROUP
    ensures Classify(p, c).reason == Classify(q, c).reason
  {
    RiskIsInThePrefix(p, c);
    RiskIsInThePrefix(q, c);
    ReasonIsInTheRisk(p, c);
    ReasonIsInTheRisk(q, c);
  }

  lemma FirstDirectory(first: Bytes, rest: Bytes)
    requires SLASH !in first && SLASH !in rest && !IsSchemaDirectory(rest)
    ensures GroupComponent(first + [SLASH] + rest) == first
  {
    SplitPiece(first, SLASH, rest);
    assert IndexOf(rest, SLASH) == |rest|;
  }

  lemma PlainName(s: Bytes)
    requires forall b :: b in s ==> NameByte(b)
    ensures SafeComponent(s) == s
  {
  }

  /** There it can: a generated file below a directory called "lockfiles" shares the group of a
      lockfile but not its reason. */
  lemma LockfileReasonsDiffer(c: Classifier)
    requires var p := Ascii("lockfiles") + [SLASH] + Ascii("dist"); !c.highRisk(p) && c.generated(p)
    requires var q := Ascii("go.sum"); !c.highRisk(q) && !c.generated(q) && c.lockfile(q)
    ensures var p, q := Classify(Ascii("lockfiles") + [SLASH] + Ascii("dist"), c), Classify(Ascii("go.sum"), c);
            p.groupId == q.groupId && p.reason != q.reason
  {
    var first, rest := Ascii("lockfiles"), Ascii("dist");
    var p := first + [SLASH] + rest;
    assert QuoteGitPath(p) == p by {
      assert forall b :: b in p ==> b in first || b in rest || b == SLASH;
      assert forall b :: b in first ==> !NeedsQuoting(b);
      assert forall b :: b in rest ==> !NeedsQuoting(b);
    }
    assert |rest| == 4;
    FirstDirectory(first, rest);
    PlainName(first);
    assert CONSISTENCY_PREFIX + first == LOCKFILES_GROUP;
  }
}
