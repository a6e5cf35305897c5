/** The distribution manifest: `ArtifactManifest::validate` and `select_active` in
    `collect-diff-context-cli/src/artifacts/contract.rs`, and the update that `write_gitleaks_pack` in
    `collect-diff-context-cli/src/artifacts/writer.rs` makes to it. */
module ManifestRules {
  import opened ByteStrings
  import opened PackRecords
  import opened Sorting

  const MAX_PACK_RECORDS: nat := 256
  const KIND: Bytes := Ascii("third_party_artifacts")
  const RELEASE_REPOSITORY: Bytes := Ascii("junit/pre-commit-review")

  datatype ManifestError =
    | InvalidIdentity | UnauthorizedRepository | InvalidSha256 | TooManyRecords | InvalidRecord
    | DuplicateKey | NotSorted | DuplicateAsset | DuplicateDigest | MultipleActive | TooLarge

  // ---------------------------------------------------------------- keys

  datatype Key = Key(artifactId: Bytes, platformId: Bytes, packVersion: Bytes)

  function KeyOf(r: PackRecord): Key {
    Key(r.artifactId, r.platformId, r.packVersion)
  }

  /** What at most one active pack may fill. */
  datatype Slot = Slot(artifactId: Bytes, platformId: Bytes)

  function SlotOf(r: PackRecord): Slot {
    Slot(r.artifactId, r.platformId)
  }

  predicate KeyLess(a: Key, b: Key) {
    || Less(a.artifactId, b.artifactId)
    || (a.artifactId == b.artifactId
        && (Less(a.platformId, b.platformId)
            || (a.platformId == b.platformId && Less(a.packVersion, b.packVersion))))
  }

  lemma KeyIrreflexive(a: Key)
    ensures !KeyLess(a, a)
  {
    LessIrreflexive(a.artifactId);
    LessIrreflexive(a.platformId);
    LessIrreflexive(a.packVersion);
  }

  lemma KeyTransitive(a: Key, b: Key, c: Key)
    requires KeyLess(a, b) && KeyLess(b, c)
    ensures KeyLess(a, c)
  {
    if Less(a.artifactId, b.artifactId) && Less(b.artifactId, c.artifactId) {
      LessTransitive(a.artifactId, b.artifactId, c.artifactId);
    } else if a.artifactId == b.artifactId == c.artifactId {
      if Less(a.platformId, b.platformId) && Less(b.platformId, c.platformId) {
        LessTransitive(a.platformId, b.platformId, c.platformId);
      } else if a.platformId == b.platformId == c.platformId {
        LessTransitive(a.packVersion, b.packVersion, c.packVersion);
      }
    }
  }

  lemma KeyTotal(a: Key, b: Key)
    ensures KeyLess(a, b) || a == b || KeyLess(b, a)
  {
    LessTotal(a.artifactId, b.artifactId);
    LessTotal(a.platformId, b.platformId);
    LessTotal(a.packVersion, b.packVersion);
  }

  // ---------------------------------------------------------------- the rules

  predicate Sha256Text(s: Bytes) {
    |s| == 64 && forall i :: 0 <= i < |s| ==> 48 <= s[i] < 58 || 97 <= s[i] < 103
  }

  /** What is wrong with record `i`, looking only at the records before it. */
  ghost function ErrorAt(c: Codec, packs: seq<PackRecord>, i: nat): Option<ManifestError>
    requires i < |packs|
  {
    var r := packs[i];
    if !c.recordOk(r) then Some(InvalidRecord)
    else if i > 0 && KeyOf(packs[i - 1]) == KeyOf(r) then Some(DuplicateKey)
    else if i > 0 && KeyLess(KeyOf(r), KeyOf(packs[i - 1])) then Some(NotSorted)
    else if exists j :: 0 <= j < i && packs[j].projectAssetName == r.projectAssetName then Some(DuplicateAsset)
    else if exists j :: 0 <= j < i && packs[j].packSha256 == r.packSha256 then Some(DuplicateDigest)
    else if r.state == Active && exists j :: 0 <= j < i && SameActive(packs[j], r) then Some(MultipleActive)
    else None
  }

  predicate SameActive(a: PackRecord, b: PackRecord) {
    a.state == Active && b.state == Active && SlotOf(a) == SlotOf(b)
  }

  ghost function FirstError(c: Codec, packs: seq<PackRecord>, i: nat): Option<ManifestError>
    requires i <= |packs|
    decreases |packs| - i
  {
    if i == |packs| then None
    else if ErrorAt(c, packs, i).Some? then ErrorAt(c, packs, i)
    else FirstError(c, packs, i + 1)
  }

  ghost function ManifestErrorOf(c: Codec, m: ArtifactManifest): Option<ManifestError> {
    if m.schemaVersion != 1 || m.kind != KIND then Some(InvalidIdentity)
    else if m.releaseRepository != RELEASE_REPOSITORY then Some(UnauthorizedRepository)
    else if !Sha256Text(m.revocationIndexSha256) then Some(InvalidSha256)
    else if |m.packs| > MAX_PACK_RECORDS then Some(TooManyRecords)
    else if FirstError(c, m.packs, 0).Some? then FirstError(c, m.packs, 0)
    else if |c.distributionJson(m)| > MAX_MANIFEST_BYTES then Some(TooLarge)
    else None
  }

  /** One pass with three sets and the previous key. */
  method Validate(c: Codec, m: ArtifactManifest) returns (r: Option<ManifestError>)
    ensures r == ManifestErrorOf(c, m)
  {
    if m.schemaVersion != 1 || m.kind != KIND {
      return Some(InvalidIdentity);
    }
    if m.releaseRepository != RELEASE_REPOSITORY {
      return Some(UnauthorizedRepository);
    }
    if !Sha256Text(m.revocationIndexSha256) {
      return Some(InvalidSha256);
    }
    if |m.packs| > MAX_PACK_RECORDS {
      return Some(TooManyRecords);
    }
    var active: set<Slot> := {};
    var assets: set<Bytes> := {};
    var digests: set<Bytes> := {};
    var previousKey: Option<Key> := None;
    var packs := m.packs;
    for i := 0 to |packs|
      invariant previousKey == if i == 0 then None else Some(KeyOf(packs[i - 1]))
      invariant forall x :: x in assets <==> exists j :: 0 <= j < i && packs[j].projectAssetName == x
      invariant forall x :: x in digests <==> exists j :: 0 <= j < i && packs[j].packSha256 == x
      invariant forall x :: x in active <==> exists j :: 0 <= j < i && packs[j].state == Active && SlotOf(packs[j]) == x
      invariant FirstError(c, packs, 0) == FirstError(c, packs, i)
    {
      var pack := packs[i];
      if !c.recordOk(pack) {
        return Some(InvalidRecord);
      }
      var key := KeyOf(pack);
      if previousKey.Some? {
        if previousKey.value == key {
          return Some(DuplicateKey);
        }
        if KeyLess(key, previousKey.value) {
          return Some(NotSorted);
        }
      }
      previousKey := Some(key);
      if pack.projectAssetName in assets {
        return Some(DuplicateAsset);
      }
      assets := assets + {pack.projectAssetName};
      if pack.packSha256 in digests {
        return Some(DuplicateDigest);
      }
      digests := digests + {pack.packSha256};
      if pack.state == Active {
        if SlotOf(pack) in active {
          return Some(MultipleActive);
        }
        active := active + {SlotOf(pack)};
      }
    }
    if |c.distributionJson(m)| > MAX_MANIFEST_BYTES {
      return Some(TooLarge);
    }
    return None;
  }

  // ---------------------------------------------------------------- the rules, globally

  ghost predicate StrictlySorted(packs: seq<PackRecord>) {
    forall i, j :: 0 <= i < j < |packs| ==> KeyLess(KeyOf(packs[i]), KeyOf(packs[j]))
  }

  /** No two records share an asset name or a digest, or are active for the same platform. */
  ghost predicate Apart(a: PackRecord, b: PackRecord) {
    && a.projectAssetName != b.projectAssetName && a.packSha256 != b.packSha256
    && !(a.state == Active && b.state == Active && a.artifactId == b.artifactId && a.platformId == b.platformId)
  }

  ghost predicate PairwiseApart(packs: seq<PackRecord>) {
    forall i, j :: 0 <= i < j < |packs| ==> Apart(packs[i], packs[j])
  }

  ghost predicate RecordsOk(c: Codec, packs: seq<PackRecord>) {
    forall i :: 0 <= i < |packs| ==> c.recordOk(packs[i])
  }

  lemma {:induction false} FirstErrorNone(c: Codec, packs: seq<PackRecord>, i: nat)
    requires i <= |packs|
    ensures FirstError(c, packs, i) == None <==> forall j :: i <= j < |packs| ==> ErrorAt(c, packs, j) == None
    decreases |packs| - i
  {
    if i < |packs| {
      FirstErrorNone(c, packs, i + 1);
    }
  }

  predicate StepsUp(packs: seq<PackRecord>, i: nat)
    requires i < |packs|
  {
    i > 0 ==> KeyLess(KeyOf(packs[i - 1]), KeyOf(packs[i]))
  }

  lemma {:induction false} NeighboursSuffice(packs: seq<PackRecord>, i: nat, j: nat)
    requires forall k :: 0 <= k < |packs| ==> StepsUp(packs, k)
    requires i < j < |packs|
    ensures KeyLess(KeyOf(packs[i]), KeyOf(packs[j]))
  {
    assert StepsUp(packs, j);
    if i + 1 < j {
      NeighboursSuffice(packs, i, j - 1);
      KeyTransitive(KeyOf(packs[i]), KeyOf(packs[j - 1]), KeyOf(packs[j]));
    }
  }

  lemma NoErrorAt(c: Codec, packs: seq<PackRecord>, i: nat)
    requires i < |packs|
    ensures ErrorAt(c, packs, i) == None <==>
            && c.recordOk(packs[i])
            && StepsUp(packs, i)
            && (forall j :: 0 <= j < i ==> Apart(packs[j], packs[i]))
  {
    if i > 0 {
      KeyTotal(KeyOf(packs[i - 1]), KeyOf(packs[i]));
      KeyIrreflexive(KeyOf(packs[i]));
      if KeyLess(KeyOf(packs[i - 1]), KeyOf(packs[i])) && KeyLess(KeyOf(packs[i]), KeyOf(packs[i - 1])) {
        KeyTransitive(KeyOf(packs[i]), KeyOf(packs[i - 1]), KeyOf(packs[i]));
      }
    }
  }

  /** The one pass accepts exactly the lists whose records are valid, strictly sorted as a whole and
      pairwise apart. */
  lemma OnePassIsGlobal(c: Codec, packs: seq<PackRecord>)
    ensures FirstError(c, packs, 0) == None <==>
            RecordsOk(c, packs) && StrictlySorted(packs) && PairwiseApart(packs)
  {
    FirstErrorNone(c, packs, 0);
    forall i | 0 <= i < |packs|
      ensures ErrorAt(c, packs, i) == None <==>
              && c.recordOk(packs[i])
              && StepsUp(packs, i)
              && (forall j :: 0 <= j < i ==> Apart(packs[j], packs[i]))
    {
      NoErrorAt(c, packs, i);
    }
    if FirstError(c, packs, 0) == None {
      forall i, j | 0 <= i < j < |packs|
        ensures KeyLess(KeyOf(packs[i]), KeyOf(packs[j]))
      {
        NeighboursSuffice(packs, i, j);
      }
    }
  }

  /** A manifest is accepted if and only if its identity, its repository and the digest of its revocation
      index are right, it has at most 256 records, these are valid, sorted and apart, and its canonical bytes
      are at most 1 MiB. */
  lemma ManifestAcceptedExactly(c: Codec, m: ArtifactManifest)
    ensures ManifestErrorOf(c, m) == None <==>
            && m.schemaVersion == 1 && m.kind == Ascii("third_party_artifacts")
            && m.releaseRepository == Ascii("junit/pre-commit-review")
            && |m.revocationIndexSha256| == 64
            && (forall b :: b in m.revocationIndexSha256 ==> 48 <= b <= 57 || 97 <= b <= 102)
            && |m.packs| <= 256 && |c.distributionJson(m)| <= 1048576
            && RecordsOk(c, m.packs) && StrictlySorted(m.packs) && PairwiseApart(m.packs)
  {
    OnePassIsGlobal(c, m.packs);
    var s := m.revocationIndexSha256;
    assert Sha256Text(s) <==> |s| == 64 && forall b :: b in s ==> 48 <= b <= 57 || 97 <= b <= 102 by {
      assert forall i :: 0 <= i < |s| ==> s[i] in s;
    }
  }

  /** The keys are ordered by artifact, then by platform, then by version. */
  lemma KeyOrderIs(a: PackRecord, b: PackRecord)
    ensures KeyLess(KeyOf(a), KeyOf(b)) <==>
            || Less(a.artifactId, b.artifactId)
            || (a.artifactId == b.artifactId && Less(a.platformId, b.platformId))
            || (a.artifactId == b.artifactId && a.platformId == b.platformId && Less(a.packVersion, b.packVersion))
  {
  }

  // ---------------------------------------------------------------- selection

  predicate Matches(r: PackRecord, artifactId: Bytes, platformId: Bytes) {
    r.artifactId == artifactId && r.platformId == platformId && r.state == Active
  }

  function Find(packs: seq<PackRecord>, artifactId: Bytes, platformId: Bytes): Option<PackRecord> {
    if packs == [] then None
    else if Matches(packs[0], artifactId, platformId) then Some(packs[0])
    else Find(packs[1..], artifactId, platformId)
  }

  /** `select_active`; every error is `None`. */
  ghost function SelectActive(c: Codec, m: ArtifactManifest, artifactId: Bytes, platformId: Bytes): Option<PackRecord> {
    if ManifestErrorOf(c, m).Some? then None else Find(m.packs, artifactId, platformId)
  }

  lemma {:induction false} FindFindsFirst(packs: seq<PackRecord>, artifactId: Bytes, platformId: Bytes)
    ensures var found := Find(packs, artifactId, platformId);
            if found.None? then forall i :: 0 <= i < |packs| ==> !Matches(packs[i], artifactId, platformId)
            else exists i :: 0 <= i < |packs| && packs[i] == found.value && Matches(packs[i], artifactId, platformId)
  {
    if packs != [] && !Matches(packs[0], artifactId, platformId) {
      FindFindsFirst(packs[1..], artifactId, platformId);
      if Find(packs[1..], artifactId, platformId).Some? {
        var i :| 0 <= i < |packs[1..]| && packs[1..][i] == Find(packs[1..], artifactId, platformId).value;
        assert packs[i + 1] == packs[1..][i];
      }
    }
  }

  /** The selected record does not depend on the order of the list: it is the only active one. */
  lemma SelectionIsUnique(c: Codec, m: ArtifactManifest, r: PackRecord)
    requires ManifestErrorOf(c, m) == None
    ensures SelectActive(c, m, r.artifactId, r.platformId) == Some(r) <==> r in m.packs && r.state == Active
  {
    OnePassIsGlobal(c, m.packs);
    FindFindsFirst(m.packs, r.artifactId, r.platformId);
  }

  // ---------------------------------------------------------------- the writer's update

  /** The new record takes the place of the active record of its platform. */
  predicate Superseded(existing: PackRecord, record: PackRecord) {
    existing.artifactId == record.artifactId && existing.platformId == record.platformId && existing.state == Active
  }

  function Retained(packs: seq<PackRecord>, record: PackRecord): (kept: seq<PackRecord>)
    ensures forall r :: r in kept <==> r in packs && !Superseded(r, record)
  {
    if packs == [] then []
    else if Superseded(packs[0], record) then Retained(packs[1..], record)
    else [packs[0]] + Retained(packs[1..], record)
  }

  predicate RecordBefore(a: PackRecord, b: PackRecord) {
    KeyLess(KeyOf(a), KeyOf(b))
  }

  function Updated(packs: seq<PackRecord>, record: PackRecord): seq<PackRecord> {
    Sort(Retained(packs, record) + [record], RecordBefore)
  }

  /** Every other record is kept, each as often as before, and nothing is added but the new one. */
  lemma UpdateKeepsOthers(packs: seq<PackRecord>, record: PackRecord)
    ensures multiset(Updated(packs, record)) == multiset(Retained(packs, record)) + multiset{record}
    ensures forall r :: r in Updated(packs, record) <==>
              || r == record
              || (r in packs
                  && !(r.artifactId == record.artifactId && r.platformId == record.platformId && r.state == Active))
  {
    var kept := Retained(packs, record) + [record];
    forall r
      ensures r in Updated(packs, record) <==> r in kept
    {
      assert r in Updated(packs, record) <==> r in multiset(Updated(packs, record));
      assert r in kept <==> r in multiset(kept);
    }
  }

  /** When the updated manifest validates, it selects the new record. */
  lemma UpdateSelectsTheNewRecord(c: Codec, m: ArtifactManifest, record: PackRecord)
    requires record.state == Active
    requires ManifestErrorOf(c, m.(packs := Updated(m.packs, record))) == None
    ensures SelectActive(c, m.(packs := Updated(m.packs, record)), record.artifactId, record.platformId) == Some(record)
  {
    UpdateKeepsOthers(m.packs, record);
    SelectionIsUnique(c, m.(packs := Updated(m.packs, record)), record);
  }

  // ---------------------------------------------------------------- when the update validates

  /** The new record may stand beside an existing one. */
  ghost predicate Compatible(a: PackRecord, b: PackRecord) {
    KeyOf(a) != KeyOf(b) && Apart(a, b)
  }

  ghost predicate Orderly(packs: seq<PackRecord>) {
    forall i, j :: 0 <= i < j < |packs| ==> KeyLess(KeyOf(packs[i]), KeyOf(packs[j])) && Apart(packs[i], packs[j])
  }

  lemma {:induction false} RetainedIsOrderly(packs: seq<PackRecord>, record: PackRecord)
    requires Orderly(packs)
    ensures Orderly(Retained(packs, record))
  {
    if packs != [] {
      RetainedIsOrderly(packs[1..], record);
      var kept := Retained(packs[1..], record);
      forall j | 0 <= j < |kept|
        ensures KeyLess(KeyOf(packs[0]), KeyOf(kept[j])) && Apart(packs[0], kept[j])
      {
        assert kept[j] in packs[1..];
      }
    }
  }

  /** Two different records of an orderly list are compatible. */
  lemma OrderlyIsCompatible(packs: seq<PackRecord>, a: PackRecord, b: PackRecord)
    requires Orderly(packs) && a in packs && b in packs && a != b
    ensures Compatible(a, b)
  {
    var i :| 0 <= i < |packs| && packs[i] == a;
    var j :| 0 <= j < |packs| && packs[j] == b;
    assert i < j || j < i;
    KeyIrreflexive(KeyOf(a));
  }

  lemma RecordOrder()
    ensures WeakOrder(RecordBefore)
  {
    forall a, b, c: PackRecord | RecordBefore(a, c)
      ensures RecordBefore(a, b) || RecordBefore(b, c)
    {
      KeyTotal(KeyOf(a), KeyOf(b));
      if KeyLess(KeyOf(b), KeyOf(a)) {
        KeyTransitive(KeyOf(b), KeyOf(a), KeyOf(c));
      }
    }
    forall a, b: PackRecord | RecordBefore(a, b)
      ensures !RecordBefore(b, a)
    {
      if RecordBefore(b, a) {
        KeyTransitive(KeyOf(a), KeyOf(b), KeyOf(a));
        KeyIrreflexive(KeyOf(a));
      }
    }
  }

  lemma UpdateIsOrderly(kept: seq<PackRecord>, record: PackRecord)
    requires Orderly(kept) && forall x :: x in kept ==> Compatible(x, record)
    ensures Orderly(Sort(kept + [record], RecordBefore))
  {
    var all, sorted := kept + [record], Sort(kept + [record], RecordBefore);
    RecordOrder();
    forall i, j | 0 <= i < j < |all|
      ensures RecordBefore(all[i], all[j]) || RecordBefore(all[j], all[i])
    {
      KeyTotal(KeyOf(all[i]), KeyOf(all[j]));
      assert j == |kept| ==> all[i] in kept && Compatible(all[i], record);
    }
    SortAscends(all, RecordBefore);
    SortKeepsMembers(all, RecordBefore);
    forall i, j | 0 <= i < j < |sorted|
      ensures Apart(sorted[i], sorted[j])
    {
      assert sorted[i] in all && sorted[j] in all;
      assert RecordBefore(sorted[i], sorted[j]);
      KeyIrreflexive(KeyOf(sorted[i]));
      if sorted[i] in kept && sorted[j] in kept {
        OrderlyIsCompatible(kept, sorted[i], sorted[j]);
      }
    }
  }

  lemma UpdateOrderlyWhen(packs: seq<PackRecord>, record: PackRecord)
    requires Orderly(packs) && record.state == Active
    ensures Orderly(Updated(packs, record)) <==> forall x :: x in Retained(packs, record) ==> Compatible(x, record)
  {
    var kept := Retained(packs, record);
    if forall x :: x in kept ==> Compatible(x, record) {
      RetainedIsOrderly(packs, record);
      UpdateIsOrderly(kept, record);
    } else {
      var x :| x in kept && !Compatible(x, record);
      UpdateKeepsOthers(packs, record);
      if Orderly(Updated(packs, record)) {
        OrderlyIsCompatible(Updated(packs, record), x, record);
      }
    }
  }

  /** A kept record is compatible unless it shares the key, the asset name or the digest. */
  ghost predicate Clashes(r: PackRecord, record: PackRecord) {
    KeyOf(r) == KeyOf(record) || r.projectAssetName == record.projectAssetName || r.packSha256 == record.packSha256
  }

  lemma UpdatedRecordsOk(c: Codec, packs: seq<PackRecord>, record: PackRecord)
    requires RecordsOk(c, packs) && c.recordOk(record)
    ensures RecordsOk(c, Updated(packs, record))
  {
    UpdateKeepsOthers(packs, record);
    var updated := Updated(packs, record);
    forall i | 0 <= i < |updated|
      ensures c.recordOk(updated[i])
    {
      assert updated[i] in updated;
    }
  }

  /** Updating a valid manifest gives a valid one exactly when the new record shares no key, asset name
      or digest with a record that is kept, and the limits allow it. */
  lemma UpdateValidates(c: Codec, m: ArtifactManifest, record: PackRecord)
    requires ManifestErrorOf(c, m) == None && record.state == Active && c.recordOk(record)
    ensures var updated := m.(packs := Updated(m.packs, record));
            ManifestErrorOf(c, updated) == None <==>
            && (forall r :: r in Retained(m.packs, record) ==> !Clashes(r, record))
            && |updated.packs| <= MAX_PACK_RECORDS && |c.distributionJson(updated)| <= MAX_MANIFEST_BYTES
  {
    OnePassIsGlobal(c, m.packs);
    OnePassIsGlobal(c, Updated(m.packs, record));
    UpdateOrderlyWhen(m.packs, record);
    UpdatedRecordsOk(c, m.packs, record);
    forall r | r in Retained(m.packs, record)
      ensures Compatible(r, record) <==> !Clashes(r, record)
    {
    }
  }
}
