/** The records that bind a pack: `collect-diff-context-cli/src/artifacts/contract.rs`, and the cache
    receipt of `collect-diff-context-cli/src/artifacts/cache.rs`. */
module PackRecords {
  import opened ByteStrings

  const MAX_MANIFEST_BYTES: nat := 1024 * 1024

  datatype Role = Executable | License | Sbom

  datatype FileBinding = FileBinding(path: Bytes, size: nat, sha256: Bytes)

  datatype PackFile = PackFile(path: Bytes, size: nat, sha256: Bytes, role: Role)

  datatype PackManifest = PackManifest(
    artifactId: Bytes, toolVersion: Bytes, packVersion: Bytes, platformId: Bytes, targetTriple: Bytes,
    sourceLockSha256: Bytes, projectAssetName: Bytes, files: seq<PackFile>)

  datatype ProbeId = GitleaksVersion | GitleaksStdinJson | RustAnalyzerVersion | RustAnalyzerStdio

  datatype Probe = Probe(id: ProbeId, success: bool, observedVersion: Option<Bytes>)

  datatype Lifecycle = Active | Revoked

  datatype ArtifactRole = Sanitizer | RepositoryContextProvider

  datatype PackRecord = PackRecord(
    artifactId: Bytes, role: ArtifactRole, toolVersion: Bytes, packVersion: Bytes, platformId: Bytes,
    targetTriple: Bytes, sourceLockSha256: Bytes, projectAssetName: Bytes, state: Lifecycle,
    packSize: nat, packSha256: Bytes, packManifestSha256: Bytes, sbomSha256: Bytes,
    executable: FileBinding, licenseFiles: seq<FileBinding>,
    versionProbe: ProbeId, capabilityProbe: ProbeId, expectedVersion: Bytes)

  datatype ArtifactManifest = ArtifactManifest(
    schemaVersion: nat, kind: Bytes, releaseRepository: Bytes, revocationIndexSha256: Bytes, packs: seq<PackRecord>)

  datatype CacheReceipt = CacheReceipt(
    artifactId: Bytes, toolVersion: Bytes, packVersion: Bytes, platformId: Bytes, packSize: nat,
    packSha256: Bytes, packManifestSha256: Bytes, files: seq<PackFile>, probes: seq<Probe>)

  datatype TargetReceipt = TargetReceipt(
    distributionSha256: Bytes, artifactId: Bytes, toolVersion: Bytes, packVersion: Bytes, platformId: Bytes,
    packSha256: Bytes, packManifestSha256: Bytes, sbomSha256: Bytes,
    installedFiles: seq<FileBinding>, licenseFiles: seq<FileBinding>, probes: seq<Probe>, state: Lifecycle)

  /** The foreign code: a digest, canonical JSON with its reader, and the field-by-field checks. */
  datatype Codec = Codec(
    hash: Bytes -> Bytes,
    manifestJson: PackManifest -> Bytes, readManifest: Bytes -> Option<PackManifest>,
    cacheJson: CacheReceipt -> Bytes, readCache: Bytes -> Option<CacheReceipt>,
    targetJson: TargetReceipt -> Bytes, readTarget: Bytes -> Option<TargetReceipt>,
    distributionJson: ArtifactManifest -> Bytes,
    recordOk: PackRecord -> bool, manifestFieldsOk: PackManifest -> bool, textOk: Bytes -> bool,
    targetReceiptOk: TargetReceipt -> bool)

  /** Reading undoes writing, and no canonical document is a proper prefix of another. */
  ghost predicate Faithful(c: Codec) {
    && (forall m: PackManifest :: c.readManifest(c.manifestJson(m)) == Some(m))
    && (forall r: CacheReceipt :: c.readCache(c.cacheJson(r)) == Some(r))
    && (forall r: TargetReceipt :: c.readTarget(c.targetJson(r)) == Some(r))
    && (forall r: TargetReceipt, s: TargetReceipt :: c.targetJson(r) <= c.targetJson(s) ==> r == s)
  }

  // ---------------------------------------------------------------- checks

  function CountRole(files: seq<PackFile>, role: Role): nat {
    if files == [] then 0 else (if files[0].role == role then 1 else 0) + CountRole(files[1..], role)
  }

  predicate PathsAscend(files: seq<PackFile>) {
    forall i :: 0 < i < |files| ==> Less(files[i - 1].path, files[i].path)
  }

  const SBOM_PATH: Bytes := Ascii("sbom.cdx.json")
  const EXECUTABLE_PREFIX: Bytes := Ascii("bin/")
  const LICENSE_PREFIX: Bytes := Ascii("licenses/")

  predicate RolePath(f: PackFile) {
    match f.role
    case Executable => EXECUTABLE_PREFIX <= f.path
    case License => LICENSE_PREFIX <= f.path
    case Sbom => f.path == SBOM_PATH
  }

  /** `PackManifest::validate`. */
  predicate ManifestOk(c: Codec, m: PackManifest) {
    && c.manifestFieldsOk(m)
    && 3 <= |m.files| <= 127
    && CountRole(m.files, Executable) == 1 && CountRole(m.files, License) != 0 && CountRole(m.files, Sbom) == 1
    && (forall i :: 0 <= i < |m.files| ==> RolePath(m.files[i]))
    && PathsAscend(m.files)
    && |c.manifestJson(m)| <= MAX_MANIFEST_BYTES
  }

  predicate BindingMatches(b: FileBinding, f: PackFile) {
    b == FileBinding(f.path, f.size, f.sha256)
  }

  function FirstWithRole(files: seq<PackFile>, role: Role): Option<PackFile> {
    if files == [] then None
    else if files[0].role == role then Some(files[0])
    else FirstWithRole(files[1..], role)
  }

  function Licenses(files: seq<PackFile>): seq<PackFile> {
    if files == [] then []
    else if files[0].role == License then [files[0]] + Licenses(files[1..])
    else Licenses(files[1..])
  }

  /** `validate_pack_manifest`. */
  predicate ManifestMatches(m: PackManifest, r: PackRecord) {
    && m.artifactId == r.artifactId && m.toolVersion == r.toolVersion && m.packVersion == r.packVersion
    && m.platformId == r.platformId && m.targetTriple == r.targetTriple
    && m.sourceLockSha256 == r.sourceLockSha256 && m.projectAssetName == r.projectAssetName
    && (match FirstWithRole(m.files, Executable)
        case None => false
        case Some(f) => BindingMatches(r.executable, f))
    && |Licenses(m.files)| == |r.licenseFiles|
    && (forall i :: 0 <= i < |r.licenseFiles| ==> BindingMatches(r.licenseFiles[i], Licenses(m.files)[i]))
    && (match FirstWithRole(m.files, Sbom)
        case None => false
        case Some(f) => f.path == SBOM_PATH && f.sha256 == r.sbomSha256)
  }

  /** `ProbeResult::validate`. */
  predicate ProbeOk(c: Codec, p: Probe) {
    p.success
    && if p.id == GitleaksVersion || p.id == RustAnalyzerVersion
       then p.observedVersion.Some? && c.textOk(p.observedVersion.value)
       else p.observedVersion.None?
  }

  /** `validate_probe_evidence`. */
  predicate ProbesOk(c: Codec, probes: seq<Probe>, r: PackRecord) {
    && |probes| == 2
    && probes[0].id == r.versionProbe && probes[1].id == r.capabilityProbe
    && ProbeOk(c, probes[0]) && ProbeOk(c, probes[1])
    && probes[0].observedVersion == Some(r.expectedVersion)
    && probes[1].observedVersion.None?
  }

  /** The derived order of the probe ids. */
  function ProbeRank(id: ProbeId): nat {
    match id
    case GitleaksVersion => 0
    case GitleaksStdinJson => 1
    case RustAnalyzerVersion => 2
    case RustAnalyzerStdio => 3
  }

  /** The probes that a valid record names for its role. */
  predicate RoleProbes(r: PackRecord) {
    match r.role
    case Sanitizer => r.versionProbe == GitleaksVersion && r.capabilityProbe == GitleaksStdinJson
    case RepositoryContextProvider => r.versionProbe == RustAnalyzerVersion && r.capabilityProbe == RustAnalyzerStdio
  }

  /** `validate_cache_receipt`. */
  predicate CacheReceiptOk(c: Codec, receipt: CacheReceipt, m: PackManifest, r: PackRecord) {
    && receipt.artifactId == r.artifactId && receipt.toolVersion == r.toolVersion
    && receipt.packVersion == r.packVersion && receipt.platformId == r.platformId
    && receipt.packSize == r.packSize && receipt.packSha256 == r.packSha256
    && receipt.packManifestSha256 == r.packManifestSha256
    && receipt.files == m.files
    && ProbesOk(c, receipt.probes, r)
    && |c.cacheJson(receipt)| <= MAX_MANIFEST_BYTES
  }

  lemma {:induction false} AscendingPaths(files: seq<PackFile>, i: nat, j: nat)
    requires PathsAscend(files) && i < j < |files|
    ensures forall k :: i < k <= j ==> Less(files[i].path, files[k].path)
  {
    if i + 1 < j {
      AscendingPaths(files, i, j - 1);
      LessTransitive(files[i].path, files[j - 1].path, files[j].path);
    }
  }
}
