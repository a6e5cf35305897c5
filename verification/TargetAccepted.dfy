/** What it means for a target to be accepted by `verify_target_receipt` in
    `collect-diff-context-cli/src/artifacts/cache.rs`, said of the files in the target. */
module TargetAccepted {
  import opened ByteStrings
  import opened Sorting
  import opened PackRecords
  import opened ManifestRules
  import opened FileTrees
  import opened CacheEntry
  import opened PackAccepted
  import opened ProvisionSteps
  import opened Provision
  import opened ProvisionSafety

  // ---------------------------------------------------------------- what a receipt must say

  /** The receipt names the distribution manifest and the record that was selected from it. */
  ghost predicate Names(c: Codec, receipt: TargetReceipt, d: ArtifactManifest, r: PackRecord) {
    && receipt.distributionSha256 == c.hash(c.distributionJson(d))
    && receipt.artifactId == r.artifactId && receipt.toolVersion == r.toolVersion
    && receipt.packVersion == r.packVersion && receipt.platformId == r.platformId
    && receipt.packSha256 == r.packSha256 && receipt.packManifestSha256 == r.packManifestSha256
    && receipt.sbomSha256 == r.sbomSha256 && receipt.state == r.state
  }

  /** The probes, with those of gitleaks before those of rust-analyzer. */
  ghost predicate ProbedInOrder(c: Codec, probes: seq<Probe>, r: PackRecord) {
    && ProbedAs(c, probes, r)
    && (r.capabilityProbe == GitleaksStdinJson ==> r.versionProbe == GitleaksVersion)
  }

  ghost predicate BindsUnder(root: Bytes, b: FileBinding, f: PackFile) {
    b.path == root + [SLASH] + f.path && b.size == f.size && b.sha256 == f.sha256
  }

  ghost predicate BindsManifest(root: Bytes, b: FileBinding, size: nat, sha256: Bytes) {
    b.path == root + [SLASH] + Ascii("pack-manifest.json") && b.size == size && b.sha256 == sha256
  }

  /** The installed files are the manifest and the files of the pack that are no licences, the licence files
      are the others; each list is in path order. */
  ghost predicate BindsThePack(receipt: TargetReceipt, root: Bytes, size: nat, sha256: Bytes, files: seq<PackFile>) {
    && PathsOfBindingsAscend(receipt.installedFiles) && PathsOfBindingsAscend(receipt.licenseFiles)
    && (forall b :: b in receipt.installedFiles <==>
          || BindsManifest(root, b, size, sha256)
          || exists f :: f in files && f.role != License && BindsUnder(root, b, f))
    && (forall b :: b in receipt.licenseFiles <==>
          exists f :: f in files && f.role == License && BindsUnder(root, b, f))
  }

  lemma InstalledIs(root: Bytes, size: nat, sha256: Bytes, files: seq<PackFile>, b: FileBinding)
    ensures b in InstalledFiles(root, size, sha256, files) <==>
            || BindsManifest(root, b, size, sha256)
            || exists f :: f in files && f.role != License && BindsUnder(root, b, f)
  {
    var first := FileBinding(Under(root, MANIFEST_FILE), size, sha256);
    SortKeepsBindings([first] + BindingsWhere(root, files, false), b);
    BindingsWhereAre(root, files, false, b);
    assert b == first <==> BindsManifest(root, b, size, sha256);
    ListedBindings(root, files, false, b);
  }

  lemma ListedBindings(root: Bytes, files: seq<PackFile>, licenses: bool, b: FileBinding)
    ensures (exists i :: 0 <= i < |files| && (files[i].role == License) == licenses &&
               b == BindingUnder(root, files[i]))
            <==> exists f :: f in files && (f.role == License) == licenses && BindsUnder(root, b, f)
  {
    if f :| f in files && (f.role == License) == licenses && BindsUnder(root, b, f) {
      var i :| 0 <= i < |files| && files[i] == f;
      assert b == BindingUnder(root, files[i]);
    }
    if i :| 0 <= i < |files| && (files[i].role == License) == licenses && b == BindingUnder(root, files[i]) {
      assert files[i] in files && BindsUnder(root, b, files[i]);
    }
  }

  lemma LicensesAre(root: Bytes, files: seq<PackFile>, b: FileBinding)
    ensures b in LicenseBindings(root, files) <==> exists f :: f in files && f.role == License && BindsUnder(root, b, f)
  {
    SortKeepsBindings(BindingsWhere(root, files, true), b);
    BindingsWhereAre(root, files, true, b);
    ListedBindings(root, files, true, b);
  }

  lemma SameList(a: seq<FileBinding>, b: seq<FileBinding>)
    requires Ordered(b)
    ensures a == b <==> PathsOfBindingsAscend(a) && forall x :: x in a <==> x in b
  {
    LessIsWeakOrder();
    if PathsOfBindingsAscend(a) && forall x :: x in a <==> x in b {
      Sorting.AscendingUnique(a, b, PathBefore);
    }
  }

  lemma BindsExactly(c: Codec, receipt: TargetReceipt, root: Bytes, size: nat, sha256: Bytes, m: PackManifest)
    requires ManifestOk(c, m)
    ensures BindsThePack(receipt, root, size, sha256, m.files) <==>
            && receipt.installedFiles == InstalledFiles(root, size, sha256, m.files)
            && receipt.licenseFiles == LicenseBindings(root, m.files)
  {
    InstalledAreOrdered(c, m, root, size, sha256);
    LicensesAreOrdered(c, m, root);
    SameList(receipt.installedFiles, InstalledFiles(root, size, sha256, m.files));
    SameList(receipt.licenseFiles, LicenseBindings(root, m.files));
    forall b
      ensures b in InstalledFiles(root, size, sha256, m.files) <==>
              || BindsManifest(root, b, size, sha256)
              || exists f :: f in m.files && f.role != License && BindsUnder(root, b, f)
      ensures b in LicenseBindings(root, m.files) <==>
              exists f :: f in m.files && f.role == License && BindsUnder(root, b, f)
    {
      InstalledIs(root, size, sha256, m.files, b);
      LicensesAre(root, m.files, b);
    }
  }

  // ---------------------------------------------------------------- what the target must hold

  /** A directory name of 1 to 255 letters, digits, ".", "_" and "-", other than "." and "..". */
  ghost predicate SafeName(s: Bytes) {
    1 <= |s| <= 255 && s != [46] && s != [46, 46] && forall b :: b in s ==> NameByte(b)
  }

  /** The files in the pack directory are the manifest, which the record's digest binds, and the files that
      it lists, with the listed sizes and digests. */
  ghost predicate HoldsThePack(c: Codec, files: Tree, root: Bytes, r: PackRecord, m: PackManifest) {
    var manifest := root + [SLASH] + Ascii("pack-manifest.json");
    && manifest in files && files[manifest] == c.manifestJson(m)
    && c.hash(c.manifestJson(m)) == r.packManifestSha256
    && (forall f :: f in m.files ==> HoldsFile(c, files, root + [SLASH] + f.path, f.size, f.sha256))
    && (forall path :: path in files && Beneath(root, path) ==>
          path == manifest || exists f :: f in m.files && path == root + [SLASH] + f.path)
  }

  ghost predicate HoldsTheReceipt(c: Codec, files: Tree, receipt: TargetReceipt) {
    var path := Ascii("runtime/artifact-receipts/") + receipt.artifactId + Ascii(".json");
    path in files && files[path] == c.targetJson(receipt) && |c.targetJson(receipt)| <= 1048576
  }

  ghost function RootOf(r: PackRecord): Bytes {
    Ascii("runtime/third-party/") + r.artifactId + [SLASH] + r.packVersion
  }

  /** Everything that an accepted target and its receipt fulfil, for the record `r` and the manifest `m`. */
  ghost predicate Installed(
    c: Codec, files: Tree, d: ArtifactManifest, receipt: TargetReceipt, r: PackRecord, m: PackManifest)
  {
    && ManifestErrorOf(c, d) == None && r in d.packs && r.state == Active
    && Names(c, receipt, d, r) && ProbedInOrder(c, receipt.probes, r) && c.targetReceiptOk(receipt)
    && SafeName(r.packVersion)
    && GoodManifest(c, m) && Describes(m, r)
    && HoldsTheReceipt(c, files, receipt)
    && HoldsThePack(c, files, RootOf(r), r, m)
    && BindsThePack(receipt, RootOf(r), |c.manifestJson(m)|, r.packManifestSha256, m.files)
  }

  // ---------------------------------------------------------------- the verifier decides this

  lemma SafeNameExactly(s: Bytes)
    ensures TargetComponent(s) <==> SafeName(s)
  {
    assert forall i :: 0 <= i < |s| ==> s[i] in s;
  }

  lemma RootIs(r: PackRecord)
    ensures PackRoot(r) == RootOf(r)
    ensures Under(PackRoot(r), MANIFEST_FILE) == RootOf(r) + [SLASH] + Ascii("pack-manifest.json")
  {
  }

  lemma ReceiptPathIs(artifactId: Bytes)
    ensures ReceiptPath(artifactId) == Ascii("runtime/artifact-receipts/") + artifactId + Ascii(".json")
  {
    assert RECEIPTS + [SLASH] == Ascii("runtime/artifact-receipts/");
  }

  lemma ReceiptReadsExactly(c: Codec, files: Tree, artifactId: Bytes, receipt: TargetReceipt)
    requires Faithful(c)
    ensures ReadTargetReceipt(c, files, artifactId) == Some(receipt) <==>
            receipt.artifactId == artifactId && HoldsTheReceipt(c, files, receipt) && TargetReceiptOk(c, receipt)
  {
    ReceiptPathIs(artifactId);
  }

  lemma SelectedIs(c: Codec, d: ArtifactManifest, artifactId: Bytes, platformId: Bytes, r: PackRecord)
    ensures SelectActive(c, d, artifactId, platformId) == Some(r) <==>
            && ManifestErrorOf(c, d) == None && r in d.packs && r.state == Active
            && r.artifactId == artifactId && r.platformId == platformId
  {
    if ManifestErrorOf(c, d) == None {
      SelectionIsUnique(c, d, r);
      FindFindsFirst(d.packs, artifactId, platformId);
    }
  }

  lemma ExpectedIs(root: Bytes, packFiles: seq<PackFile>, path: Bytes)
    ensures path in ExpectedInventory(root, packFiles) <==>
            path == Under(root, MANIFEST_FILE) || exists f :: f in packFiles && path == Under(root, f.path)
    ensures path in ExpectedInventory(root, packFiles) ==> Beneath(root, path)
  {
    if f :| f in packFiles && path == Under(root, f.path) {
      var i :| 0 <= i < |packFiles| && packFiles[i] == f;
      assert path == Under(root, packFiles[i].path);
    }
    if i :| 0 <= i < |packFiles| && path == Under(root, packFiles[i].path) {
      assert packFiles[i] in packFiles;
    }
  }

  lemma InventoryExactly(files: Tree, root: Bytes, packFiles: seq<PackFile>)
    requires Under(root, MANIFEST_FILE) in files && forall f :: f in packFiles ==> Under(root, f.path) in files
    ensures Inventory(files, root) == ExpectedInventory(root, packFiles) <==>
            forall path :: path in files && Beneath(root, path) ==>
              path == Under(root, MANIFEST_FILE) || exists f :: f in packFiles && path == Under(root, f.path)
    ensures |ExpectedInventory(root, packFiles)| <= 1 + |packFiles|
  {
    FewFiles(root, packFiles);
    var observed, expected := Inventory(files, root), ExpectedInventory(root, packFiles);
    forall path
      ensures path in expected <==>
              path == Under(root, MANIFEST_FILE) || exists f :: f in packFiles && path == Under(root, f.path)
      ensures path in expected ==> path in observed
    {
      ExpectedIs(root, packFiles, path);
    }
    assert observed == expected <==> observed <= expected;
    assert forall path :: path in observed <==> path in files && Beneath(root, path);
  }

  /** With the lists as they should be, the bindings hold exactly when the files of the pack do. */
  lemma BindingsAreFiles(
    c: Codec, files: Tree, receipt: TargetReceipt, root: Bytes, size: nat, sha256: Bytes, packFiles: seq<PackFile>)
    requires BindsThePack(receipt, root, size, sha256, packFiles)
    ensures BindingsHold(c, files, receipt.installedFiles) && BindingsHold(c, files, receipt.licenseFiles) <==>
            && HoldsFile(c, files, Under(root, MANIFEST_FILE), size, sha256)
            && forall f :: f in packFiles ==> HoldsFile(c, files, Under(root, f.path), f.size, f.sha256)
  {
    var manifest := FileBinding(Under(root, MANIFEST_FILE), size, sha256);
    assert BindsManifest(root, manifest, size, sha256);
    assert manifest in receipt.installedFiles;
    forall f | f in packFiles
      ensures BindingUnder(root, f) in receipt.installedFiles || BindingUnder(root, f) in receipt.licenseFiles
    {
      assert BindsUnder(root, BindingUnder(root, f), f);
    }
    if BindingsHold(c, files, receipt.installedFiles) && BindingsHold(c, files, receipt.licenseFiles) {
      assert BindingHolds(c, files, manifest);
      forall f | f in packFiles
        ensures HoldsFile(c, files, Under(root, f.path), f.size, f.sha256)
      {
        assert BindingHolds(c, files, BindingUnder(root, f));
      }
    }
  }

  lemma PackExactly(
    c: Codec, files: Tree, receipt: TargetReceipt, r: PackRecord, m: PackManifest)
    requires ManifestOk(c, m)
    requires var path := Under(PackRoot(r), MANIFEST_FILE);
             path in files && files[path] == c.manifestJson(m) && c.hash(files[path]) == r.packManifestSha256
    ensures InventoryHolds(c, files, receipt, r, m, |c.manifestJson(m)|) <==>
            && HoldsThePack(c, files, RootOf(r), r, m)
            && BindsThePack(receipt, RootOf(r), |c.manifestJson(m)|, r.packManifestSha256, m.files)
  {
    var root, size := PackRoot(r), |c.manifestJson(m)|;
    RootIs(r);
    BindsExactly(c, receipt, root, size, r.packManifestSha256, m);
    if BindsThePack(receipt, root, size, r.packManifestSha256, m.files) {
      BindingsAreFiles(c, files, receipt, root, size, r.packManifestSha256, m.files);
      if forall f :: f in m.files ==> Under(root, f.path) in files {
        InventoryExactly(files, root, m.files);
      }
    }
  }

  lemma ListsAreOk(c: Codec, receipt: TargetReceipt, root: Bytes, size: nat, sha256: Bytes, m: PackManifest)
    requires ManifestOk(c, m) && BindsThePack(receipt, root, size, sha256, m.files)
    ensures BindingsAscend(receipt.installedFiles) && BindingsAscend(receipt.licenseFiles)
    ensures receipt.installedFiles != [] && receipt.licenseFiles != []
  {
    BindsExactly(c, receipt, root, size, sha256, m);
    InstalledIsNotEmpty(root, size, sha256, m.files);
    LicensesAreOrdered(c, m, root);
  }

  lemma ProbesAreOk(c: Codec, probes: seq<Probe>, r: PackRecord)
    requires ProbedInOrder(c, probes, r)
    ensures ReceiptProbesOk(c, probes)
  {
  }

  /** The checks of the receipt alone are fulfilled by every receipt of an installed pack. */
  lemma ReceiptIsOk(c: Codec, receipt: TargetReceipt, root: Bytes, r: PackRecord, m: PackManifest)
    requires c.targetReceiptOk(receipt) && |c.targetJson(receipt)| <= 1048576
    requires ManifestOk(c, m) && BindsThePack(receipt, root, |c.manifestJson(m)|, r.packManifestSha256, m.files)
    requires ProbedInOrder(c, receipt.probes, r)
    ensures TargetReceiptOk(c, receipt)
  {
    ListsAreOk(c, receipt, root, |c.manifestJson(m)|, r.packManifestSha256, m);
    ProbesAreOk(c, receipt.probes, r);
  }

  lemma ManifestIs(c: Codec, files: Tree, path: Bytes, sha256: Bytes, m: PackManifest)
    requires Faithful(c)
    ensures ReadManifest(c, files, path, sha256) == Some(m) <==>
            path in files && files[path] == c.manifestJson(m) && c.hash(files[path]) == sha256 && ManifestOk(c, m)
  {
  }

  lemma InstalledSelects(
    c: Codec, files: Tree, d: ArtifactManifest, receipt: TargetReceipt, r: PackRecord, m: PackManifest)
    requires Faithful(c) && Installed(c, files, d, receipt, r, m)
    ensures VerifySelected(c, files, receipt, d, r) == Some(receipt)
  {
    var path := Under(PackRoot(r), MANIFEST_FILE);
    RootIs(r);
    SafeNameExactly(r.packVersion);
    ProbedExactly(c, receipt.probes, r);
    GoodManifestExactly(c, m);
    assert ReadManifest(c, files, path, r.packManifestSha256) == Some(m) by {
      ManifestIs(c, files, path, r.packManifestSha256, m);
    }
    assert ManifestMatches(m, r) by {
      DescribesExactly(c, m, r);
    }
    PackExactly(c, files, receipt, r, m);
  }

  lemma SelectedIsInstalled(
    c: Codec, files: Tree, d: ArtifactManifest, receipt: TargetReceipt, r: PackRecord) returns (m: PackManifest)
    requires Faithful(c) && VerifySelected(c, files, receipt, d, r) == Some(receipt)
    requires ReadTargetReceipt(c, files, receipt.artifactId) == Some(receipt)
    requires SelectActive(c, d, receipt.artifactId, receipt.platformId) == Some(r)
    ensures Installed(c, files, d, receipt, r, m)
  {
    var path := Under(PackRoot(r), MANIFEST_FILE);
    m := ReadManifest(c, files, path, r.packManifestSha256).value;
    RootIs(r);
    SafeNameExactly(r.packVersion);
    ProbedExactly(c, receipt.probes, r);
    ReceiptReadsExactly(c, files, receipt.artifactId, receipt);
    SelectedIs(c, d, receipt.artifactId, receipt.platformId, r);
    assert path in files && files[path] == c.manifestJson(m) && ManifestOk(c, m) by {
      ManifestIs(c, files, path, r.packManifestSha256, m);
    }
    assert GoodManifest(c, m) && Describes(m, r) by {
      GoodManifestExactly(c, m);
      DescribesExactly(c, m, r);
    }
    PackExactly(c, files, receipt, r, m);
  }

  /** A target is accepted for an artifact, with a receipt, if and only if the receipt names the artifact and
      the target holds the receipt and the pack of an active record of the distribution manifest. */
  lemma VerifiesExactly(
    c: Codec, files: Tree, artifactId: Bytes, d: ArtifactManifest, receipt: TargetReceipt)
    requires Faithful(c)
    ensures VerifyTarget(c, files, artifactId, d) == Some(receipt) <==>
            receipt.artifactId == artifactId && exists r, m :: Installed(c, files, d, receipt, r, m)
  {
    ReceiptReadsExactly(c, files, artifactId, receipt);
    if VerifyTarget(c, files, artifactId, d) == Some(receipt) {
      var r := SelectActive(c, d, receipt.artifactId, receipt.platformId).value;
      var m := SelectedIsInstalled(c, files, d, receipt, r);
    }
    if receipt.artifactId == artifactId {
      if r, m :| Installed(c, files, d, receipt, r, m) {
        GoodManifestExactly(c, m);
        ReceiptIsOk(c, receipt, RootOf(r), r, m);
        SelectedIs(c, d, artifactId, receipt.platformId, r);
        InstalledSelects(c, files, d, receipt, r, m);
      }
    }
  }

  /** A receipt alone is accepted if and only if its fields are, its two lists are not empty and in path
      order, its two probes are valid and in order, and its canonical bytes are at most 1 MiB. */
  lemma ReceiptAcceptedExactly(c: Codec, receipt: TargetReceipt)
    ensures TargetReceiptOk(c, receipt) <==>
            && c.targetReceiptOk(receipt) && |c.targetJson(receipt)| <= 1048576
            && receipt.installedFiles != [] && PathsOfBindingsAscend(receipt.installedFiles)
            && receipt.licenseFiles != [] && PathsOfBindingsAscend(receipt.licenseFiles)
            && |receipt.probes| == 2 && ValidProbe(c, receipt.probes[0]) && ValidProbe(c, receipt.probes[1])
            && Earlier(receipt.probes[0].id, receipt.probes[1].id)
  {
    NeighboursAscend(receipt.installedFiles);
    NeighboursAscend(receipt.licenseFiles);
  }

  /** A successful probe, with a version exactly when it asks for one. */
  ghost predicate ValidProbe(c: Codec, p: Probe) {
    && p.success
    && (p.id == GitleaksVersion || p.id == RustAnalyzerVersion ==>
          p.observedVersion.Some? && c.textOk(p.observedVersion.value))
    && (p.id == GitleaksStdinJson || p.id == RustAnalyzerStdio ==> p.observedVersion == None)
  }

  /** The ids in the order of their declaration. */
  ghost predicate Earlier(a: ProbeId, b: ProbeId) {
    || (a == GitleaksVersion && b != GitleaksVersion)
    || (a == GitleaksStdinJson && (b == RustAnalyzerVersion || b == RustAnalyzerStdio))
    || (a == RustAnalyzerVersion && b == RustAnalyzerStdio)
  }

  lemma NeighboursAscend(bindings: seq<FileBinding>)
    ensures BindingsAscend(bindings) <==> PathsOfBindingsAscend(bindings)
  {
    if BindingsAscend(bindings) {
      forall i, j | 0 <= i < j < |bindings|
        ensures Less(bindings[i].path, bindings[j].path)
      {
        AscendingBindings(bindings, i, j);
      }
    }
  }

  lemma {:induction false} AscendingBindings(bindings: seq<FileBinding>, i: nat, j: nat)
    requires BindingsAscend(bindings) && i < j < |bindings|
    ensures Less(bindings[i].path, bindings[j].path)
  {
    assert Less(bindings[j - 1].path, bindings[j].path);
    if i + 1 < j {
      AscendingBindings(bindings, i, j - 1);
      LessTransitive(bindings[i].path, bindings[j - 1].path, bindings[j].path);
    }
  }

  // ---------------------------------------------------------------- what an acceptance is worth

  /** In an accepted target every file that the receipt binds is in place, with its size and digest. */
  lemma VerifiedBindingsHold(
    c: Codec, files: Tree, artifactId: Bytes, d: ArtifactManifest, receipt: TargetReceipt, b: FileBinding)
    requires Faithful(c) && VerifyTarget(c, files, artifactId, d) == Some(receipt)
    requires b in receipt.installedFiles || b in receipt.licenseFiles
    ensures b.path in files && |files[b.path]| == b.size && c.hash(files[b.path]) == b.sha256
  {
    VerifiesExactly(c, files, artifactId, d, receipt);
    var r, m :| Installed(c, files, d, receipt, r, m);
    BindingsAreFiles(c, files, receipt, RootOf(r), |c.manifestJson(m)|, r.packManifestSha256, m.files);
    assert BindingHolds(c, files, b);
  }

  lemma SameManifestInBoth(
    c: Codec, s: Tree, t: Tree, d: ArtifactManifest, p: TargetReceipt, q: TargetReceipt, r: PackRecord, m: PackManifest,
    n: PackManifest)
    requires Faithful(c) && Injective(c.hash)
    requires Installed(c, s, d, p, r, m) && Installed(c, t, d, q, r, n)
    ensures m == n
  {
    assert c.manifestJson(m) == c.manifestJson(n);
    assert c.readManifest(c.manifestJson(m)) == Some(m) && c.readManifest(c.manifestJson(n)) == Some(n);
  }

  lemma SameFileInBoth(c: Codec, s: Tree, t: Tree, root: Bytes, r: PackRecord, m: PackManifest, path: Bytes)
    requires Injective(c.hash) && HoldsThePack(c, s, root, r, m) && HoldsThePack(c, t, root, r, m)
    requires path in s && Beneath(root, path)
    ensures path in t && s[path] == t[path]
  {
    if path != root + [SLASH] + Ascii("pack-manifest.json") {
      var f :| f in m.files && path == root + [SLASH] + f.path;
      assert HoldsFile(c, s, path, f.size, f.sha256) && HoldsFile(c, t, path, f.size, f.sha256);
    }
  }

  lemma SelectedInBoth(
    c: Codec, d: ArtifactManifest, s: Tree, t: Tree, p: TargetReceipt, q: TargetReceipt, r: PackRecord, x: PackRecord,
    m: PackManifest, n: PackManifest)
    requires Installed(c, s, d, p, r, m) && Installed(c, t, d, q, x, n)
    requires p.artifactId == q.artifactId && p.platformId == q.platformId
    ensures r == x
  {
    SelectedIs(c, d, p.artifactId, p.platformId, r);
    SelectedIs(c, d, p.artifactId, p.platformId, x);
  }

  /** Two accepted targets of one artifact and platform hold the same pack: the same files with the same
      contents in the pack directory. */
  lemma VerifiedTargetsAgree(
    c: Codec, s: Tree, t: Tree, artifactId: Bytes, d: ArtifactManifest, p: TargetReceipt, q: TargetReceipt)
    requires Faithful(c) && Injective(c.hash)
    requires VerifyTarget(c, s, artifactId, d) == Some(p) && VerifyTarget(c, t, artifactId, d) == Some(q)
    requires p.platformId == q.platformId
    ensures exists r :: r in d.packs && r.state == Active && r.artifactId == artifactId && r.platformId == p.platformId
                        && SamePack(s, t, RootOf(r))
  {
    VerifiesExactly(c, s, artifactId, d, p);
    VerifiesExactly(c, t, artifactId, d, q);
    var r, m :| Installed(c, s, d, p, r, m);
    var x, n :| Installed(c, t, d, q, x, n);
    SelectedInBoth(c, d, s, t, p, q, r, x, m, n);
    SameManifestInBoth(c, s, t, d, p, q, r, m, n);
    forall path | Beneath(RootOf(r), path)
      ensures path in s <==> path in t
      ensures path in s ==> s[path] == t[path]
    {
      if path in s {
        SameFileInBoth(c, s, t, RootOf(r), r, m, path);
      }
      if path in t {
        SameFileInBoth(c, t, s, RootOf(r), r, m, path);
      }
    }
    assert SamePack(s, t, RootOf(r));
  }

  ghost predicate SamePack(s: Tree, t: Tree, root: Bytes) {
    forall path :: Beneath(root, path) ==> (path in s <==> path in t) && (path in s ==> s[path] == t[path])
  }
}
