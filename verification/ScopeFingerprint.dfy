/** The framed material behind a review scope's fingerprint:
    `scope_fingerprint_bounded` in `collect-diff-context-cli/src/app.rs`. */
module ScopeFingerprint {
  import opened ByteStrings
  import opened Numerals

  // ---------------------------------------------------------------- fields

  datatype Field = Field(name: Bytes, value: Bytes)

  /** A name, the value's length and the value, each ended by NUL. */
  function FieldBytes(f: Field): Bytes {
    f.name + [NUL] + Decimal(|f.value|) + [NUL] + f.value + [NUL]
  }

  function FieldsBytes(fields: seq<Field>): Bytes {
    if fields == [] then [] else FieldBytes(fields[0]) + FieldsBytes(fields[1..])
  }

  ghost predicate Named(f: Field) {
    NUL !in f.name
  }

  lemma FirstNul(a: Bytes, x: Bytes, b: Bytes, y: Bytes)
    requires NUL !in a && NUL !in b && a + [NUL] + x == b + [NUL] + y
    ensures a == b && x == y
  {
    var s, t := a + [NUL] + x, b + [NUL] + y;
    assert s[..|a|] == a && t[..|b|] == b;
    IndexOfFirst(s, NUL, |a|);
    IndexOfFirst(t, NUL, |b|);
    assert s[|a| + 1..] == x && t[|b| + 1..] == y;
  }

  lemma DecimalHasNoNul(n: nat)
    ensures NUL !in Decimal(n)
  {
  }

  /** A field can be cut off the front of any material in one way only, whatever bytes the values
      contain. */
  lemma FieldCutsOff(f: Field, x: Bytes, g: Field, y: Bytes)
    requires Named(f) && Named(g) && FieldBytes(f) + x == FieldBytes(g) + y
    ensures f == g && x == y
  {
    var fRest := Decimal(|f.value|) + [NUL] + (f.value + [NUL] + x);
    var gRest := Decimal(|g.value|) + [NUL] + (g.value + [NUL] + y);
    assert FieldBytes(f) + x == f.name + [NUL] + fRest;
    assert FieldBytes(g) + y == g.name + [NUL] + gRest;
    FirstNul(f.name, fRest, g.name, gRest);
    DecimalHasNoNul(|f.value|);
    DecimalHasNoNul(|g.value|);
    FirstNul(Decimal(|f.value|), f.value + [NUL] + x, Decimal(|g.value|), g.value + [NUL] + y);
    DecimalInjective(|f.value|, |g.value|);
    var s, t := f.value + [NUL] + x, g.value + [NUL] + y;
    assert f.value == s[..|f.value|] && g.value == t[..|g.value|];
    assert x == s[|f.value| + 1..] && y == t[|g.value| + 1..];
  }

  lemma {:induction false} FieldsInjective(a: seq<Field>, b: seq<Field>)
    requires (forall f :: f in a ==> Named(f)) && (forall f :: f in b ==> Named(f))
    requires FieldsBytes(a) == FieldsBytes(b)
    ensures a == b
  {
    NoFieldsNoBytes(a);
    NoFieldsNoBytes(b);
    if a != [] {
      FieldCutsOff(a[0], FieldsBytes(a[1..]), b[0], FieldsBytes(b[1..]));
      FieldsInjective(a[1..], b[1..]);
      assert a == [a[0]] + a[1..];
      assert b == [b[0]] + b[1..];
    }
  }

  lemma NoFieldsNoBytes(fields: seq<Field>)
    ensures FieldsBytes(fields) == [] <==> fields == []
  {
    if fields != [] {
      assert |FieldBytes(fields[0])| > 0;
    }
  }

  lemma {:induction false} FieldsAppend(a: seq<Field>, b: seq<Field>)
    ensures FieldsBytes(a + b) == FieldsBytes(a) + FieldsBytes(b)
  {
    if a == [] {
      assert a + b == b;
    } else {
      FieldsAppend(a[1..], b);
      assert (a + b)[1..] == a[1..] + b;
      ConcatAssociates(FieldBytes(a[0]), FieldsBytes(a[1..]), FieldsBytes(b));
    }
  }

  lemma FieldsNext(fields: seq<Field>, n: nat)
    requires n < |fields|
    ensures FieldsBytes(fields[..n + 1]) == FieldsBytes(fields[..n]) + FieldBytes(fields[n])
  {
    FieldsAppend(fields[..n], [fields[n]]);
    assert fields[..n + 1] == fields[..n] + [fields[n]];
    assert FieldBytes(fields[n]) + [] == FieldBytes(fields[n]);
  }

  // ---------------------------------------------------------------- the material

  datatype ScopeInputs = ScopeInputs(source: Bytes, selectedRef: Bytes, head: Bytes, diff: Bytes,
                                     groupTargetBytes: nat, groupHardBytes: nat,
                                     pathPatterns: seq<Bytes>, contentPatterns: seq<Bytes>)

  const SOURCE_NAME: Bytes := Ascii("source")
  const SELECTED_REF_NAME: Bytes := Ascii("selected-ref")
  const HEAD_NAME: Bytes := Ascii("head")
  const DIFF_NAME: Bytes := Ascii("diff")
  const GROUP_TARGET_NAME: Bytes := Ascii("group-target-bytes")
  const GROUP_HARD_NAME: Bytes := Ascii("group-hard-bytes")
  const RISK_PATH_NAME: Bytes := Ascii("risk-path")
  const RISK_CONTENT_NAME: Bytes := Ascii("risk-content")
  const NO_SOURCE: Bytes := Ascii("none")

  /** The tag and its NUL. */
  const VERSION_TAG: Bytes := Ascii("pre-commit-review-scope-fingerprint-v2") + [NUL]

  /** `sort_unstable` and `dedup`: the patterns as a set, in order. */
  function PatternSet(patterns: seq<Bytes>): (r: seq<Bytes>)
    ensures Ascending(r)
    ensures forall x :: x in r <==> x in patterns
  {
    if patterns == [] then []
    else
      assert patterns == [patterns[0]] + patterns[1..];
      InsertKey(PatternSet(patterns[1..]), patterns[0])
  }

  function PatternFields(name: Bytes, patterns: seq<Bytes>): (r: seq<Field>)
    ensures |r| == |patterns|
    ensures forall i :: 0 <= i < |r| ==> r[i] == Field(name, patterns[i])
  {
    seq(|patterns|, i requires 0 <= i < |patterns| => Field(name, patterns[i]))
  }

  /** Without a source there is no diff. */
  function EffectiveDiff(x: ScopeInputs): Bytes {
    if x.source == NO_SOURCE then [] else x.diff
  }

  function FixedFields(x: ScopeInputs): seq<Field> {
    [Field(SOURCE_NAME, x.source),
     Field(SELECTED_REF_NAME, x.selectedRef),
     Field(HEAD_NAME, x.head),
     Field(DIFF_NAME, EffectiveDiff(x)),
     Field(GROUP_TARGET_NAME, Decimal(x.groupTargetBytes)),
     Field(GROUP_HARD_NAME, Decimal(x.groupHardBytes))]
  }

  function PatternRuns(x: ScopeInputs): seq<Field> {
    PatternFields(RISK_PATH_NAME, PatternSet(x.pathPatterns))
    + PatternFields(RISK_CONTENT_NAME, PatternSet(x.contentPatterns))
  }

  function AllFields(x: ScopeInputs): seq<Field> {
    FixedFields(x) + PatternRuns(x)
  }

  function Material(x: ScopeInputs): Bytes {
    VERSION_TAG + FieldsBytes(AllFields(x))
  }

  /** The growing byte vector. */
  class MaterialBuffer {
    var bytes: Bytes

    constructor (initial: Bytes)
      ensures bytes == initial
    {
      bytes := initial;
    }

    method AppendFingerprintField(name: Bytes, value: Bytes)
      modifies this
      ensures bytes == old(bytes) + FieldBytes(Field(name, value))
    {
      bytes := bytes + name;
      bytes := bytes + [NUL];
      bytes := bytes + Decimal(|value|);
      bytes := bytes + [NUL];
      bytes := bytes + value;
      bytes := bytes + [NUL];
      assert bytes == old(bytes) + FieldBytes(Field(name, value));
    }

    /** Appends field `n` of the fixed fields. */
    method AppendNext(name: Bytes, value: Bytes, ghost fixed: seq<Field>, ghost n: nat)
      requires n < |fixed| && fixed[n] == Field(name, value)
      requires bytes == VERSION_TAG + FieldsBytes(fixed[..n])
      modifies this
      ensures bytes == VERSION_TAG + FieldsBytes(fixed[..n + 1])
    {
      AppendFingerprintField(name, value);
      FieldsNext(fixed, n);
      ConcatAssociates(VERSION_TAG, FieldsBytes(fixed[..n]), FieldBytes(fixed[n]));
    }

    method AppendRegexSet(name: Bytes, patterns: seq<Bytes>)
      modifies this
      ensures bytes == old(bytes) + FieldsBytes(PatternFields(name, PatternSet(patterns)))
    {
      var sorted := PatternSet(patterns);
      ghost var fields := PatternFields(name, sorted);
      for n := 0 to |sorted|
        invariant bytes == old(bytes) + FieldsBytes(fields[..n])
      {
        ghost var before := bytes;
        AppendFingerprintField(name, sorted[n]);
        FieldsNext(fields, n);
        ConcatAssociates(old(bytes), FieldsBytes(fields[..n]), FieldBytes(fields[n]));
      }
      assert fields[..|sorted|] == fields;
    }
  }

  method ScopeMaterial(x: ScopeInputs) returns (material: Bytes)
    ensures material == Material(x)
  {
    var buffer := new MaterialBuffer(VERSION_TAG);
    AppendFixed(buffer, x);
    buffer.AppendRegexSet(RISK_PATH_NAME, x.pathPatterns);
    buffer.AppendRegexSet(RISK_CONTENT_NAME, x.contentPatterns);
    MaterialParts(x);
    material := buffer.bytes;
  }

  /** The six fields that every material has. */
  method AppendFixed(buffer: MaterialBuffer, x: ScopeInputs)
    requires buffer.bytes == VERSION_TAG
    modifies buffer
    ensures buffer.bytes == VERSION_TAG + FieldsBytes(FixedFields(x))
  {
    ghost var fixed := FixedFields(x);
    assert VERSION_TAG + FieldsBytes(fixed[..0]) == VERSION_TAG;
    buffer.AppendNext(SOURCE_NAME, x.source, fixed, 0);
    buffer.AppendNext(SELECTED_REF_NAME, x.selectedRef, fixed, 1);
    buffer.AppendNext(HEAD_NAME, x.head, fixed, 2);
    AppendContents(buffer, x);
  }

  /** The last three of them. */
  method AppendContents(buffer: MaterialBuffer, x: ScopeInputs)
    requires buffer.bytes == VERSION_TAG + FieldsBytes(FixedFields(x)[..3])
    modifies buffer
    ensures buffer.bytes == VERSION_TAG + FieldsBytes(FixedFields(x))
  {
    ghost var fixed := FixedFields(x);
    buffer.AppendNext(DIFF_NAME, EffectiveDiff(x), fixed, 3);
    buffer.AppendNext(GROUP_TARGET_NAME, Decimal(x.groupTargetBytes), fixed, 4);
    buffer.AppendNext(GROUP_HARD_NAME, Decimal(x.groupHardBytes), fixed, 5);
    assert |fixed| == 6 && fixed[..6] == fixed;
  }

  lemma MaterialParts(x: ScopeInputs)
    ensures Material(x) == (VERSION_TAG + FieldsBytes(FixedFields(x)))
                           + FieldsBytes(PatternFields(RISK_PATH_NAME, PatternSet(x.pathPatterns)))
                           + FieldsBytes(PatternFields(RISK_CONTENT_NAME, PatternSet(x.contentPatterns)))
  {
    var fixed := FixedFields(x);
    var paths := PatternFields(RISK_PATH_NAME, PatternSet(x.pathPatterns));
    var contents := PatternFields(RISK_CONTENT_NAME, PatternSet(x.contentPatterns));
    FieldsAppend(paths, contents);
    FieldsAppend(fixed, paths + contents);
    ConcatAssociates(FieldsBytes(fixed), FieldsBytes(paths), FieldsBytes(contents));
    ConcatAssociates(VERSION_TAG, FieldsBytes(fixed), FieldsBytes(paths));
    ConcatAssociates(VERSION_TAG, FieldsBytes(fixed) + FieldsBytes(paths), FieldsBytes(contents));
  }

  lemma NamesAre()
    ensures SOURCE_NAME == Ascii("source") && SELECTED_REF_NAME == Ascii("selected-ref") && HEAD_NAME == Ascii("head")
    ensures DIFF_NAME == Ascii("diff") && GROUP_TARGET_NAME == Ascii("group-target-bytes")
    ensures GROUP_HARD_NAME == Ascii("group-hard-bytes")
    ensures RISK_PATH_NAME == Ascii("risk-path") && RISK_CONTENT_NAME == Ascii("risk-content")
  {
  }

  /** The fields in their order. */
  lemma FieldsAre(x: ScopeInputs)
    ensures var fields := AllFields(x);
            var paths := |PatternSet(x.pathPatterns)|;
            && |fields| == 6 + paths + |PatternSet(x.contentPatterns)|
            && fields[0] == Field(SOURCE_NAME, x.source)
            && fields[1] == Field(SELECTED_REF_NAME, x.selectedRef)
            && fields[2] == Field(HEAD_NAME, x.head)
            && fields[3] == Field(DIFF_NAME, if x.source == NO_SOURCE then [] else x.diff)
            && fields[4] == Field(GROUP_TARGET_NAME, Decimal(x.groupTargetBytes))
            && fields[5] == Field(GROUP_HARD_NAME, Decimal(x.groupHardBytes))
            && (forall i :: 6 <= i < 6 + paths ==> fields[i].name == RISK_PATH_NAME)
            && (forall i :: 6 + paths <= i < |fields| ==> fields[i].name == RISK_CONTENT_NAME)
  {
  }

  // ---------------------------------------------------------------- injectivity

  /** Equal in everything the fingerprint is meant to bind; patterns count as sets. */
  ghost predicate SameScope(a: ScopeInputs, b: ScopeInputs) {
    && a.source == b.source
    && a.selectedRef == b.selectedRef
    && a.head == b.head
    && (a.source != Ascii("none") ==> a.diff == b.diff)
    && a.groupTargetBytes == b.groupTargetBytes
    && a.groupHardBytes == b.groupHardBytes
    && (forall p :: p in a.pathPatterns <==> p in b.pathPatterns)
    && (forall p :: p in a.contentPatterns <==> p in b.contentPatterns)
  }

  lemma NamesHaveNoNul()
    ensures NUL !in SOURCE_NAME && NUL !in SELECTED_REF_NAME && NUL !in HEAD_NAME && NUL !in DIFF_NAME
    ensures NUL !in GROUP_TARGET_NAME && NUL !in GROUP_HARD_NAME
    ensures NUL !in RISK_PATH_NAME && NUL !in RISK_CONTENT_NAME
  {
  }

  lemma AllFieldsAreNamed(x: ScopeInputs)
    ensures forall f :: f in AllFields(x) ==> Named(f)
  {
    NamesHaveNoNul();
    assert forall f :: f in FixedFields(x) ==> Named(f);
    assert forall f :: f in PatternRuns(x) ==> f.name == RISK_PATH_NAME || f.name == RISK_CONTENT_NAME;
  }

  /** Two runs of fields with different names part in one way only. */
  lemma RunsPart(p: Bytes, q: Bytes, a: seq<Bytes>, b: seq<Bytes>, c: seq<Bytes>, d: seq<Bytes>)
    requires p != q
    requires PatternFields(p, a) + PatternFields(q, b) == PatternFields(p, c) + PatternFields(q, d)
    ensures a == c && b == d
  {
    var s, t := PatternFields(p, a) + PatternFields(q, b), PatternFields(p, c) + PatternFields(q, d);
    var k := if |a| < |c| then |a| else |c|;
    assert k < |s| ==> (s[k].name == p <==> k < |a|);
    assert k < |t| ==> (t[k].name == p <==> k < |c|);
    assert |s| == |a| + |b| && |t| == |c| + |d|;
    forall i | 0 <= i < |a|
      ensures a[i] == c[i]
    {
      assert s[i] == Field(p, a[i]) && t[i] == Field(p, c[i]);
    }
    forall i | 0 <= i < |b|
      ensures b[i] == d[i]
    {
      assert s[|a| + i] == Field(q, b[i]) && t[|a| + i] == Field(q, d[i]);
    }
  }

  /** Two materials are equal exactly when they describe the same scope. */
  lemma MaterialInjective(a: ScopeInputs, b: ScopeInputs)
    ensures Material(a) == Material(b) <==> SameScope(a, b)
  {
    if Material(a) == Material(b) {
      assert FieldsBytes(AllFields(a)) == Material(a)[|VERSION_TAG|..];
      assert FieldsBytes(AllFields(b)) == Material(b)[|VERSION_TAG|..];
      AllFieldsAreNamed(a);
      AllFieldsAreNamed(b);
      FieldsInjective(AllFields(a), AllFields(b));
      assert AllFields(a)[..6] == FixedFields(a) && AllFields(a)[6..] == PatternRuns(a);
      assert AllFields(b)[..6] == FixedFields(b) && AllFields(b)[6..] == PatternRuns(b);
      var x, y := FixedFields(a), FixedFields(b);
      assert x[0].value == y[0].value && x[1].value == y[1].value && x[2].value == y[2].value;
      assert x[3].value == y[3].value && x[4].value == y[4].value && x[5].value == y[5].value;
      DecimalInjective(a.groupTargetBytes, b.groupTargetBytes);
      DecimalInjective(a.groupHardBytes, b.groupHardBytes);
      assert |RISK_PATH_NAME| != |RISK_CONTENT_NAME|;
      RunsPart(RISK_PATH_NAME, RISK_CONTENT_NAME, PatternSet(a.pathPatterns), PatternSet(a.contentPatterns),
               PatternSet(b.pathPatterns), PatternSet(b.contentPatterns));
      assert forall p :: p in PatternSet(a.pathPatterns) <==> p in PatternSet(b.pathPatterns);
      assert forall p :: p in PatternSet(a.contentPatterns) <==> p in PatternSet(b.contentPatterns);
    }
    if SameScope(a, b) {
      AscendingUnique(PatternSet(a.pathPatterns), PatternSet(b.pathPatterns));
      AscendingUnique(PatternSet(a.contentPatterns), PatternSet(b.contentPatterns));
    }
  }

  // ---------------------------------------------------------------- opening and revalidating

  datatype ScopeError = OpeningMismatch | ChangedDuringCollection | FinalMismatch | HeadChanged | FingerprintChanged

  /** The fingerprint checks around a collection. */
  function CheckFingerprints(start: Bytes, end: Bytes, expected: Option<Bytes>): Result<Bytes, ScopeError> {
    if expected.Some? && expected.value != start then Err(OpeningMismatch)
    else if end != start then Err(ChangedDuringCollection)
    else if expected.Some? && expected.value != end then Err(FinalMismatch)
    else Ok(end)
  }

  /** The checks for a collection that observed `atStart` first and `atEnd` last; `hash` is Git's object
      hash. */
  function OpenScope(hash: Bytes -> Bytes, atStart: ScopeInputs, atEnd: ScopeInputs, expected: Option<Bytes>)
    : Result<Bytes, ScopeError>
  {
    CheckFingerprints(hash(Material(atStart)), hash(Material(atEnd)), expected)
  }

  function Revalidate(
    hash: Bytes -> Bytes, fingerprint: Bytes, scopeHead: Bytes, now: ScopeInputs): Result<(), ScopeError> {
    if now.head != scopeHead then Err(HeadChanged)
    else if hash(Material(now)) != fingerprint then Err(FingerprintChanged)
    else Ok(())
  }

  /** A scope is opened exactly when its two observations agree (and match any expectation), and it
      is revalidated exactly when a later observation agrees with them. */
  lemma ObservationsAgree(hash: Bytes -> Bytes, atStart: ScopeInputs, atEnd: ScopeInputs,
                          expected: Option<Bytes>, now: ScopeInputs)
    requires Injective(hash)
    ensures OpenScope(hash, atStart, atEnd, expected).Ok? <==>
            SameScope(atStart, atEnd) && (expected.Some? ==> expected.value == hash(Material(atStart)))
    ensures OpenScope(hash, atStart, atEnd, expected).Ok? ==>
            (Revalidate(hash, OpenScope(hash, atStart, atEnd, expected).value, atStart.head, now) == Ok(())
             <==> SameScope(atStart, now))
    ensures OpenScope(hash, atStart, atEnd, expected) != Err(FinalMismatch)
    ensures OpenScope(hash, atStart, atEnd, expected).Ok? && now.head != atStart.head ==>
            Revalidate(hash, OpenScope(hash, atStart, atEnd, expected).value, atStart.head, now) == Err(HeadChanged)
  {
    MaterialInjective(atStart, atEnd);
    MaterialInjective(atStart, now);
  }
}
