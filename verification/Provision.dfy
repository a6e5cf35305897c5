/** Provisioning a pack from the cache into a target root, and verifying the receipt it leaves there:
    `provision_from_cache` and `verify_target_receipt` in
    `collect-diff-context-cli/src/artifacts/cache.rs`. */
module Provision {
  import opened ByteStrings
  import opened PackRecords
  import opened Sorting
  import opened ManifestRules
  import opened FileTrees
  import opened CacheEntry
  import opened ProvisionSteps

  const THIRD_PARTY: Bytes := Ascii("runtime/third-party/")
  const DISTRIBUTION_FILE: Bytes := Ascii("runtime/distribution/manifest.json")
  const PROFILE_FILE: Bytes := Ascii("runtime/providers/rust-analyzer.profile.json")
  const REGISTRY_FILE: Bytes := Ascii("runtime/providers/provider-registry.json")
  const JSON_SUFFIX: Bytes := Ascii(".json")

  function Under(dir: Bytes, path: Bytes): Bytes {
    dir + [SLASH] + path
  }

  /** `target_pack_root`. */
  function PackRoot(r: PackRecord): Bytes {
    THIRD_PARTY + (r.artifactId + [SLASH] + r.packVersion)
  }

  function ReceiptPath(artifactId: Bytes): Bytes {
    Under(RECEIPTS, artifactId + JSON_SUFFIX)
  }

  /** `validate_target_component`. */
  predicate TargetComponent(s: Bytes) {
    0 < |s| <= 255 && s != [46] && s != [46, 46] && forall i :: 0 <= i < |s| ==> NameByte(s[i])
  }

  /** `validate_identifier`. */
  predicate Identifier(s: Bytes) {
    0 < |s| <= 64 && 97 <= s[0] < 123 && forall i :: 0 <= i < |s| ==> 97 <= s[i] < 123 || 48 <= s[i] < 58 || s[i] == 45
  }

  // ---------------------------------------------------------------- the inventory of a receipt

  predicate BindingBefore(a: FileBinding, b: FileBinding) {
    Less(a.path, b.path)
  }

  /** `sort_by` on the path. */
  function SortBindings(bindings: seq<FileBinding>): (s: seq<FileBinding>)
    ensures multiset(s) == multiset(bindings)
  {
    Sort(bindings, BindingBefore)
  }

  function BindingUnder(root: Bytes, f: PackFile): FileBinding {
    FileBinding(Under(root, f.path), f.size, f.sha256)
  }

  /** The bindings of the files that are licences, or of those that are not, in manifest order. */
  function BindingsWhere(root: Bytes, files: seq<PackFile>, licenses: bool): seq<FileBinding> {
    if files == [] then []
    else if (files[0].role == License) == licenses
    then [BindingUnder(root, files[0])] + BindingsWhere(root, files[1..], licenses)
    else BindingsWhere(root, files[1..], licenses)
  }

  function InstalledFiles(
    root: Bytes, manifestSize: nat, manifestSha256: Bytes, files: seq<PackFile>): seq<FileBinding> {
    var manifest := FileBinding(Under(root, MANIFEST_FILE), manifestSize, manifestSha256);
    SortBindings([manifest] + BindingsWhere(root, files, false))
  }

  function LicenseBindings(root: Bytes, files: seq<PackFile>): seq<FileBinding> {
    SortBindings(BindingsWhere(root, files, true))
  }

  // ---------------------------------------------------------------- one call

  /** `manifestSize` is what the file system says of the cached manifest when it is copied; `refreshed`
      and `manifest` are what the validation of the cache entry found; `independent` says that target
      and cache do not overlap. */
  datatype Order = Order(
    distribution: ArtifactManifest, record: PackRecord, refreshed: CacheReceipt, manifest: PackManifest,
    manifestSize: nat, independent: bool, profile: Bytes, registry: Bytes)

  /** The record was selected from the distribution manifest, and the cache entry validated against it. */
  ghost predicate OrderOk(c: Codec, order: Order) {
    && ManifestErrorOf(c, order.distribution) == None
    && SelectActive(c, order.distribution, order.record.artifactId, order.record.platformId) == Some(order.record)
    && CacheReceiptOk(c, order.refreshed, order.manifest, order.record)
    && ManifestMatches(order.manifest, order.record)
    && ManifestOk(c, order.manifest)
    && c.hash(c.manifestJson(order.manifest)) == order.record.packManifestSha256
    && RoleProbes(order.record) && Identifier(order.record.artifactId) && TargetComponent(order.record.packVersion)
  }

  function TargetReceiptOf(c: Codec, order: Order): TargetReceipt {
    var r, root := order.record, PackRoot(order.record);
    TargetReceipt(
      c.hash(c.distributionJson(order.distribution)), r.artifactId, r.toolVersion, r.packVersion, r.platformId,
      r.packSha256, r.packManifestSha256, r.sbomSha256,
      InstalledFiles(root, order.manifestSize, r.packManifestSha256, order.refreshed.files),
      LicenseBindings(root, order.refreshed.files),
      order.refreshed.probes, r.state)
  }

  /** `validate_sorted_bindings`. */
  predicate BindingsAscend(bindings: seq<FileBinding>) {
    forall i :: 0 < i < |bindings| ==> Less(bindings[i - 1].path, bindings[i].path)
  }

  predicate ReceiptProbesOk(c: Codec, probes: seq<Probe>) {
    && |probes| == 2
    && (forall i :: 0 <= i < |probes| ==> ProbeOk(c, probes[i]))
    && (forall i :: 0 < i < |probes| ==> ProbeRank(probes[i - 1].id) < ProbeRank(probes[i].id))
  }

  /** `ArtifactReceipt::validate`. */
  predicate TargetReceiptOk(c: Codec, receipt: TargetReceipt) {
    && c.targetReceiptOk(receipt)
    && BindingsAscend(receipt.installedFiles) && BindingsAscend(receipt.licenseFiles)
    && receipt.installedFiles != [] && receipt.licenseFiles != []
    && ReceiptProbesOk(c, receipt.probes)
    && |c.targetJson(receipt)| <= MAX_MANIFEST_BYTES
  }

  function CopiesUnder(root: Bytes, files: seq<PackFile>): (items: seq<Item>)
    ensures |items| == |files|
    ensures forall i :: 0 <= i < |files| ==>
              items[i] == Copied(Under(root, files[i].path), files[i].size, files[i].sha256)
  {
    seq(|files|, i requires 0 <= i < |files| => Copied(Under(root, files[i].path), files[i].size, files[i].sha256))
  }

  function BoundItems(order: Order): seq<Item> {
    var root := PackRoot(order.record);
    [Copied(Under(root, MANIFEST_FILE), order.manifestSize, order.record.packManifestSha256)]
    + CopiesUnder(root, order.refreshed.files)
  }

  function ProviderItems(order: Order): seq<Item> {
    if order.record.role == RepositoryContextProvider
    then [Written(PROFILE_FILE, order.profile), Written(REGISTRY_FILE, order.registry)]
    else []
  }

  /** The files that the receipt does not bind: those of the provider, and the receipt itself. */
  function LooseItems(c: Codec, order: Order): seq<Item> {
    ProviderItems(order) + [Written(ReceiptPath(order.record.artifactId), c.targetJson(TargetReceiptOf(c, order)))]
  }

  ghost function PlanOf(c: Codec, order: Order): Plan<TargetReceipt> {
    var receipt := TargetReceiptOf(c, order);
    Plan(
      order.independent, PackRoot(order.record),
      Written(DISTRIBUTION_FILE, c.distributionJson(order.distribution)),
      BoundItems(order) + LooseItems(c, order),
      |BoundItems(order)|, order.record.role == RepositoryContextProvider,
      receipt, TargetReceiptOk(c, receipt),
      files => VerifyTarget(c, files, order.record.artifactId, order.distribution))
  }

  ghost function PlansOf(c: Codec, orders: seq<Order>): (plans: seq<Plan<TargetReceipt>>)
    ensures |plans| == |orders|
    ensures forall i :: 0 <= i < |orders| ==> plans[i] == PlanOf(c, orders[i])
  {
    seq(|orders|, i requires 0 <= i < |orders| => PlanOf(c, orders[i]))
  }

  // ---------------------------------------------------------------- verification of a target

  /** `read_target_receipt_at`. */
  function ReadTargetReceipt(c: Codec, files: Tree, artifactId: Bytes): Option<TargetReceipt> {
    match ReadBounded(files, ReceiptPath(artifactId))
    case None => None
    case Some(bytes) =>
      match c.readTarget(bytes)
      case None => None
      case Some(receipt) =>
        if c.targetJson(receipt) == bytes && TargetReceiptOk(c, receipt) && receipt.artifactId == artifactId
        then Some(receipt) else None
  }

  predicate ReceiptMatches(c: Codec, receipt: TargetReceipt, distribution: ArtifactManifest, r: PackRecord) {
    && receipt.distributionSha256 == c.hash(c.distributionJson(distribution))
    && receipt.toolVersion == r.toolVersion && receipt.packVersion == r.packVersion
    && receipt.packSha256 == r.packSha256 && receipt.packManifestSha256 == r.packManifestSha256
    && receipt.sbomSha256 == r.sbomSha256 && receipt.state == r.state
    && ProbesOk(c, receipt.probes, r)
  }

  /** `verify_binding`. */
  predicate BindingHolds(c: Codec, files: Tree, b: FileBinding) {
    b.path in files && |files[b.path]| == b.size && c.hash(files[b.path]) == b.sha256
  }

  ghost predicate BindingsHold(c: Codec, files: Tree, bindings: seq<FileBinding>) {
    forall b :: b in bindings ==> BindingHolds(c, files, b)
  }

  /** The files beneath a pack directory. */
  function Inventory(files: Tree, root: Bytes): set<Bytes> {
    set path | path in files && Beneath(root, path)
  }

  function ExpectedInventory(root: Bytes, packFiles: seq<PackFile>): set<Bytes> {
    {Under(root, MANIFEST_FILE)} + (set i | 0 <= i < |packFiles| :: Under(root, packFiles[i].path))
  }

  /** The inventory that the verifier recomputes from the pack manifest on disk. */
  ghost predicate InventoryHolds(
    c: Codec, files: Tree, receipt: TargetReceipt, r: PackRecord, m: PackManifest, manifestSize: nat) {
    var root := PackRoot(r);
    && receipt.installedFiles == InstalledFiles(root, manifestSize, r.packManifestSha256, m.files)
    && receipt.licenseFiles == LicenseBindings(root, m.files)
    && BindingsHold(c, files, receipt.installedFiles) && BindingsHold(c, files, receipt.licenseFiles)
    && Inventory(files, root) == ExpectedInventory(root, m.files)
    && |Inventory(files, root)| <= MAX_CACHE_FILES
  }

  /** `verify_target_receipt`; every error is `None`. */
  ghost function VerifyTarget(
    c: Codec, files: Tree, artifactId: Bytes, distribution: ArtifactManifest): Option<TargetReceipt> {
    if ManifestErrorOf(c, distribution).Some? then None
    else if !(exists r :: r in distribution.packs && r.artifactId == artifactId) then None
    else
      match ReadTargetReceipt(c, files, artifactId)
      case None => None
      case Some(receipt) =>
        match SelectActive(c, distribution, receipt.artifactId, receipt.platformId)
        case None => None
        case Some(r) => VerifySelected(c, files, receipt, distribution, r)
  }

  ghost function VerifySelected(
    c: Codec, files: Tree, receipt: TargetReceipt, distribution: ArtifactManifest, r: PackRecord)
    : Option<TargetReceipt>
  {
    if !ReceiptMatches(c, receipt, distribution, r) || !TargetComponent(r.packVersion) then None
    else
      var manifestPath := Under(PackRoot(r), MANIFEST_FILE);
      match ReadManifest(c, files, manifestPath, r.packManifestSha256)
      case None => None
      case Some(m) =>
        if ManifestMatches(m, r) && InventoryHolds(c, files, receipt, r, m, |files[manifestPath]|) then Some(receipt)
        else None
  }
}
