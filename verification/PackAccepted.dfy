/** What it means for a pack manifest and for a cache entry to be accepted: the checks of
    `collect-diff-context-cli/src/artifacts/contract.rs` and of `validate_cache_entry` in
    `collect-diff-context-cli/src/artifacts/cache.rs`, said of the files and bytes themselves. */
module PackAccepted {
  import opened ByteStrings
  import opened Sorting
  import opened PackRecords
  import opened FileTrees
  import opened CacheEntry

  // ---------------------------------------------------------------- the files of a manifest

  ghost predicate OnlyAt(files: seq<PackFile>, role: Role, i: int) {
    0 <= i < |files| && forall j :: 0 <= j < |files| ==> (files[j].role == role <==> j == i)
  }

  ghost predicate OnlyOne(files: seq<PackFile>, role: Role) {
    exists i :: OnlyAt(files, role, i)
  }

  ghost predicate NoneOf(files: seq<PackFile>, role: Role) {
    forall i :: 0 <= i < |files| ==> files[i].role != role
  }

  lemma {:induction false} CountsNone(files: seq<PackFile>, role: Role)
    ensures CountRole(files, role) == 0 <==> NoneOf(files, role)
  {
    if files != [] {
      var rest := files[1..];
      CountsNone(rest, role);
      assert forall i :: 0 <= i < |rest| ==> files[i + 1] == rest[i];
      assert forall i :: 0 < i < |files| ==> files[i] == rest[i - 1];
    }
  }

  lemma OnlyAtLater(files: seq<PackFile>, role: Role, i: int)
    requires files != [] && i > 0
    ensures OnlyAt(files, role, i) <==> files[0].role != role && OnlyAt(files[1..], role, i - 1)
  {
    var rest := files[1..];
    assert forall j :: 0 <= j < |rest| ==> files[j + 1] == rest[j];
    assert forall j :: 0 < j < |files| ==> files[j] == rest[j - 1];
  }

  lemma OnlyAtFirst(files: seq<PackFile>, role: Role)
    requires files != []
    ensures OnlyAt(files, role, 0) <==> files[0].role == role && NoneOf(files[1..], role)
  {
    var rest := files[1..];
    assert forall j :: 0 <= j < |rest| ==> files[j + 1] == rest[j];
    assert forall j :: 0 < j < |files| ==> files[j] == rest[j - 1];
  }

  lemma OnlyOneFirst(files: seq<PackFile>, role: Role)
    requires files != []
    ensures OnlyOne(files, role) <==>
            if files[0].role == role then NoneOf(files[1..], role) else OnlyOne(files[1..], role)
  {
    OnlyAtFirst(files, role);
    if i :| OnlyAt(files, role, i) && i > 0 {
      OnlyAtLater(files, role, i);
    }
    if i :| OnlyAt(files[1..], role, i) {
      OnlyAtLater(files, role, i + 1);
    }
  }

  lemma {:induction false} CountsOne(files: seq<PackFile>, role: Role)
    ensures CountRole(files, role) == 1 <==> OnlyOne(files, role)
  {
    if files != [] {
      CountsOne(files[1..], role);
      CountsNone(files[1..], role);
      OnlyOneFirst(files, role);
    }
  }

  /** "bin/", "licenses/" and "sbom.cdx.json". */
  ghost predicate InItsPlace(f: PackFile) {
    && (f.role == Executable ==> |f.path| >= 4 && f.path[..4] == [98, 105, 110, 47])
    && (f.role == License ==> |f.path| >= 9 && f.path[..9] == [108, 105, 99, 101, 110, 115, 101, 115, 47])
    && (f.role == Sbom ==> f.path == [115, 98, 111, 109, 46, 99, 100, 120, 46, 106, 115, 111, 110])
  }

  lemma InItsPlaceExactly(f: PackFile)
    ensures RolePath(f) <==> InItsPlace(f)
  {
    assert EXECUTABLE_PREFIX == [98, 105, 110, 47];
    assert LICENSE_PREFIX == [108, 105, 99, 101, 110, 115, 101, 115, 47];
    assert SBOM_PATH == [115, 98, 111, 109, 46, 99, 100, 120, 46, 106, 115, 111, 110];
  }

  ghost predicate PathsRise(files: seq<PackFile>) {
    forall i, j :: 0 <= i < j < |files| ==> Less(files[i].path, files[j].path)
  }

  /** Of the 3 to 127 files one is the executable, one the bill of materials, at least one a licence, all are
      where their role puts them, and no path comes twice or out of order. */
  ghost predicate GoodFiles(files: seq<PackFile>) {
    && 3 <= |files| <= 127
    && OnlyOne(files, Executable) && OnlyOne(files, Sbom) && !NoneOf(files, License)
    && (forall f :: f in files ==> InItsPlace(f))
    && PathsRise(files)
  }

  ghost predicate GoodManifest(c: Codec, m: PackManifest) {
    c.manifestFieldsOk(m) && |c.manifestJson(m)| <= 1048576 && GoodFiles(m.files)
  }

  lemma PathsRiseExactly(files: seq<PackFile>)
    ensures PathsAscend(files) <==> PathsRise(files)
  {
    if PathsAscend(files) {
      forall i, j | 0 <= i < j < |files|
        ensures Less(files[i].path, files[j].path)
      {
        AscendingPaths(files, i, j);
      }
    }
  }

  lemma AllInPlace(files: seq<PackFile>)
    ensures (forall i :: 0 <= i < |files| ==> RolePath(files[i])) <==> forall f :: f in files ==> InItsPlace(f)
  {
    forall i | 0 <= i < |files|
      ensures RolePath(files[i]) <==> InItsPlace(files[i])
    {
      InItsPlaceExactly(files[i]);
    }
  }

  lemma GoodManifestExactly(c: Codec, m: PackManifest)
    ensures ManifestOk(c, m) <==> GoodManifest(c, m)
  {
    var files := m.files;
    assert CountRole(files, Executable) == 1 <==> OnlyOne(files, Executable) by {
      CountsOne(files, Executable);
    }
    assert CountRole(files, Sbom) == 1 <==> OnlyOne(files, Sbom) by {
      CountsOne(files, Sbom);
    }
    assert CountRole(files, License) == 0 <==> NoneOf(files, License) by {
      CountsNone(files, License);
    }
    assert PathsAscend(files) <==> PathsRise(files) by {
      PathsRiseExactly(files);
    }
    AllInPlace(files);
  }

  // ---------------------------------------------------------------- the manifest and the record

  ghost predicate BindsFile(b: FileBinding, f: PackFile) {
    b.path == f.path && b.size == f.size && b.sha256 == f.sha256
  }

  ghost predicate BindsOneOf(b: FileBinding, files: seq<PackFile>, role: Role) {
    exists f :: f in files && f.role == role && BindsFile(b, f)
  }

  ghost predicate PathsOfBindingsAscend(bindings: seq<FileBinding>) {
    forall i, j :: 0 <= i < j < |bindings| ==> Less(bindings[i].path, bindings[j].path)
  }

  /** The manifest has the identity of the record; the record binds its executable, its licences in path
      order, and its bill of materials. */
  ghost predicate Describes(m: PackManifest, r: PackRecord) {
    && m.artifactId == r.artifactId && m.toolVersion == r.toolVersion && m.packVersion == r.packVersion
    && m.platformId == r.platformId && m.targetTriple == r.targetTriple
    && m.sourceLockSha256 == r.sourceLockSha256 && m.projectAssetName == r.projectAssetName
    && BindsOneOf(r.executable, m.files, Executable)
    && PathsOfBindingsAscend(r.licenseFiles)
    && (forall b :: b in r.licenseFiles <==> BindsOneOf(b, m.files, License))
    && (exists f :: f in m.files && f.role == Sbom && f.sha256 == r.sbomSha256)
  }

  lemma {:induction false} FirstIsTheOnly(files: seq<PackFile>, role: Role)
    requires OnlyOne(files, role)
    ensures FirstWithRole(files, role).Some?
    ensures forall f :: f in files && f.role == role <==> f == FirstWithRole(files, role).value
  {
    OnlyOneFirst(files, role);
    assert files == [files[0]] + files[1..];
    if files[0].role == role {
      CountsNone(files[1..], role);
      assert forall f :: f in files[1..] ==> f.role != role;
    } else {
      FirstIsTheOnly(files[1..], role);
    }
  }

  predicate PathBefore(a: FileBinding, b: FileBinding) {
    Less(a.path, b.path)
  }

  function BindingOf(f: PackFile): FileBinding {
    FileBinding(f.path, f.size, f.sha256)
  }

  function LicenseBindingsOf(files: seq<PackFile>): seq<FileBinding> {
    if files == [] then []
    else if files[0].role == License then [BindingOf(files[0])] + LicenseBindingsOf(files[1..])
    else LicenseBindingsOf(files[1..])
  }

  lemma {:induction false} LicensesAreBound(files: seq<PackFile>)
    ensures |LicenseBindingsOf(files)| == |Licenses(files)|
    ensures forall i :: 0 <= i < |Licenses(files)| ==> LicenseBindingsOf(files)[i] == BindingOf(Licenses(files)[i])
    ensures forall b :: b in LicenseBindingsOf(files) <==> BindsOneOf(b, files, License)
  {
    if files != [] {
      LicensesAreBound(files[1..]);
      assert files == [files[0]] + files[1..];
      forall b
        ensures BindsOneOf(b, files, License) <==>
                (files[0].role == License && BindsFile(b, files[0])) || BindsOneOf(b, files[1..], License)
      {
      }
    }
  }

  lemma {:induction false} LicenseBindingsAscend(files: seq<PackFile>)
    requires PathsRise(files)
    ensures Ascends(LicenseBindingsOf(files), PathBefore)
  {
    if files != [] {
      var rest := files[1..];
      LicenseBindingsAscend(rest);
      LicensesAreBound(rest);
      forall b | b in LicenseBindingsOf(rest)
        ensures Less(files[0].path, b.path)
      {
        var f :| f in rest && f.role == License && BindsFile(b, f);
        var i :| 0 <= i < |rest| && rest[i] == f;
        assert files[i + 1] == f;
      }
    }
  }

  lemma LicensesExactly(files: seq<PackFile>, bindings: seq<FileBinding>)
    requires PathsRise(files)
    ensures bindings == LicenseBindingsOf(files) <==>
            PathsOfBindingsAscend(bindings) && forall b :: b in bindings <==> BindsOneOf(b, files, License)
  {
    LicensesAreBound(files);
    LicenseBindingsAscend(files);
    LessIsWeakOrder();
    if PathsOfBindingsAscend(bindings) && forall b :: b in bindings <==> BindsOneOf(b, files, License) {
      Sorting.AscendingUnique(bindings, LicenseBindingsOf(files), PathBefore);
    }
  }

  lemma DescribesExactly(c: Codec, m: PackManifest, r: PackRecord)
    requires ManifestOk(c, m)
    ensures ManifestMatches(m, r) <==> Describes(m, r)
  {
    GoodManifestExactly(c, m);
    FirstIsTheOnly(m.files, Executable);
    FirstIsTheOnly(m.files, Sbom);
    LicensesAreBound(m.files);
    LicensesExactly(m.files, r.licenseFiles);
    var sbom := FirstWithRole(m.files, Sbom).value;
    assert sbom in m.files && InItsPlace(sbom);
    InItsPlaceExactly(sbom);
    assert (forall i :: 0 <= i < |r.licenseFiles| && |r.licenseFiles| == |Licenses(m.files)| ==>
              BindingMatches(r.licenseFiles[i], Licenses(m.files)[i])) ==>
           (|r.licenseFiles| == |Licenses(m.files)| ==> r.licenseFiles == LicenseBindingsOf(m.files));
  }

  // ---------------------------------------------------------------- probes

  /** Evidence of a run of the record's version probe, with the expected version, and then of its other
      probe. */
  ghost predicate ProbedAs(c: Codec, probes: seq<Probe>, r: PackRecord) {
    && |probes| == 2
    && probes[0] == Probe(r.versionProbe, true, Some(r.expectedVersion))
    && probes[1] == Probe(r.capabilityProbe, true, None)
    && (r.versionProbe == GitleaksVersion || r.versionProbe == RustAnalyzerVersion)
    && (r.capabilityProbe == GitleaksStdinJson || r.capabilityProbe == RustAnalyzerStdio)
    && c.textOk(r.expectedVersion)
  }

  lemma ProbedExactly(c: Codec, probes: seq<Probe>, r: PackRecord)
    ensures ProbesOk(c, probes, r) <==> ProbedAs(c, probes, r)
  {
  }

  // ---------------------------------------------------------------- an accepted cache entry

  ghost predicate HoldsFile(c: Codec, tree: Tree, path: Bytes, size: nat, sha256: Bytes) {
    path in tree && |tree[path]| == size && c.hash(tree[path]) == sha256
  }

  /** The entry is exactly a receipt, a manifest with the record's digest, and the files of the manifest with
      their sizes and digests; the receipt names the record. */
  ghost predicate GoodEntry(c: Codec, tree: Tree, r: PackRecord, receipt: CacheReceipt, m: PackManifest) {
    && RECEIPT_FILE in tree && tree[RECEIPT_FILE] == c.cacheJson(receipt) && |c.cacheJson(receipt)| <= 1048576
    && MANIFEST_FILE in tree && tree[MANIFEST_FILE] == c.manifestJson(m)
    && c.hash(c.manifestJson(m)) == r.packManifestSha256
    && GoodManifest(c, m) && Describes(m, r)
    && receipt == CacheReceipt(r.artifactId, r.toolVersion, r.packVersion, r.platformId, r.packSize,
                               r.packSha256, r.packManifestSha256, m.files, receipt.probes)
    && ProbedAs(c, receipt.probes, r)
    && (forall f :: f in m.files ==> HoldsFile(c, tree, f.path, f.size, f.sha256))
    && (forall path :: path in tree ==>
          path == RECEIPT_FILE || path == MANIFEST_FILE || exists f :: f in m.files && f.path == path)
  }

  lemma EntryFiles(c: Codec, tree: Tree, files: seq<PackFile>)
    ensures AllBound(c, tree, files) <==> forall f :: f in files ==> HoldsFile(c, tree, f.path, f.size, f.sha256)
  {
    if AllBound(c, tree, files) {
      forall f | f in files
        ensures HoldsFile(c, tree, f.path, f.size, f.sha256)
      {
        var i :| 0 <= i < |files| && files[i] == f;
        assert FileBound(c, tree, files[i]);
      }
    }
  }

  lemma EntryKeys(tree: Tree, files: seq<PackFile>)
    requires RECEIPT_FILE in tree && MANIFEST_FILE in tree && forall f :: f in files ==> f.path in tree
    ensures tree.Keys == {RECEIPT_FILE, MANIFEST_FILE} + PathsOf(files) <==>
            forall path :: path in tree ==>
              path == RECEIPT_FILE || path == MANIFEST_FILE || exists f :: f in files && f.path == path
  {
    forall path
      ensures path in PathsOf(files) <==> exists f :: f in files && f.path == path
    {
      if f :| f in files && f.path == path {
        var i :| 0 <= i < |files| && files[i] == f;
        assert files[i].path == path;
      }
      if i :| 0 <= i < |files| && files[i].path == path {
        assert files[i] in files;
      }
    }
  }

  lemma ReceiptNames(c: Codec, receipt: CacheReceipt, m: PackManifest, r: PackRecord)
    ensures CacheReceiptOk(c, receipt, m, r) <==>
            && receipt == CacheReceipt(r.artifactId, r.toolVersion, r.packVersion, r.platformId, r.packSize,
                                       r.packSha256, r.packManifestSha256, m.files, receipt.probes)
            && ProbedAs(c, receipt.probes, r) && |c.cacheJson(receipt)| <= 1048576
  {
    ProbedExactly(c, receipt.probes, r);
  }

  lemma ReceiptReadsBack(c: Codec, tree: Tree, receipt: CacheReceipt)
    requires Faithful(c) && RECEIPT_FILE in tree && tree[RECEIPT_FILE] == c.cacheJson(receipt)
    ensures ReadReceipt(c, tree) == if |c.cacheJson(receipt)| <= 1048576 then Some(receipt) else None
  {
  }

  lemma ManifestReadsBack(c: Codec, tree: Tree, path: Bytes, m: PackManifest)
    requires Faithful(c) && path in tree && tree[path] == c.manifestJson(m) && ManifestOk(c, m)
    ensures ReadManifest(c, tree, path, c.hash(c.manifestJson(m))) == Some(m)
  {
  }

  lemma GoodEntryReads(c: Codec, tree: Tree, r: PackRecord, receipt: CacheReceipt, m: PackManifest)
    requires Faithful(c) && GoodEntry(c, tree, r, receipt, m)
    ensures ReadReceipt(c, tree) == Some(receipt)
    ensures ReadManifest(c, tree, MANIFEST_FILE, r.packManifestSha256) == Some(m)
  {
    assert ManifestOk(c, m) by {
      GoodManifestExactly(c, m);
    }
    ReceiptReadsBack(c, tree, receipt);
    ManifestReadsBack(c, tree, MANIFEST_FILE, m);
  }

  lemma GoodEntryFiles(c: Codec, tree: Tree, r: PackRecord, receipt: CacheReceipt, m: PackManifest)
    requires GoodEntry(c, tree, r, receipt, m)
    ensures AllBound(c, tree, m.files) && tree.Keys == {RECEIPT_FILE, MANIFEST_FILE} + PathsOf(m.files)
  {
    EntryFiles(c, tree, m.files);
    EntryKeys(tree, m.files);
  }

  lemma GoodEntryValidates(c: Codec, tree: Tree, r: PackRecord, receipt: CacheReceipt, m: PackManifest)
    requires Faithful(c) && GoodEntry(c, tree, r, receipt, m)
    ensures ValidateEntry(c, tree, r) == Some(receipt)
  {
    GoodEntryReads(c, tree, r, receipt, m);
    GoodEntryFiles(c, tree, r, receipt, m);
    ReceiptNames(c, receipt, m, r);
    assert ManifestMatches(m, r) by {
      GoodManifestExactly(c, m);
      DescribesExactly(c, m, r);
    }
    EntryValidates(c, tree, r, receipt, m);
  }

  lemma ValidEntryIsGood(c: Codec, tree: Tree, r: PackRecord, receipt: CacheReceipt)
    requires Faithful(c) && ValidateEntry(c, tree, r) == Some(receipt)
    ensures exists m :: GoodEntry(c, tree, r, receipt, m)
  {
    var m := ReadManifest(c, tree, MANIFEST_FILE, r.packManifestSha256).value;
    assert GoodManifest(c, m) by {
      GoodManifestExactly(c, m);
    }
    assert Describes(m, r) by {
      DescribesExactly(c, m, r);
    }
    ReceiptNames(c, receipt, m, r);
    EntryFiles(c, tree, m.files);
    EntryKeys(tree, m.files);
    assert GoodEntry(c, tree, r, receipt, m);
  }

  /** A directory is accepted as the cache entry of a record, with a receipt, if and only if it is a good
      entry with this receipt. */
  lemma ValidatesExactly(c: Codec, tree: Tree, r: PackRecord, receipt: CacheReceipt)
    requires Faithful(c)
    ensures ValidateEntry(c, tree, r) == Some(receipt) <==> exists m :: GoodEntry(c, tree, r, receipt, m)
  {
    if ValidateEntry(c, tree, r) == Some(receipt) {
      ValidEntryIsGood(c, tree, r, receipt);
    }
    if m :| GoodEntry(c, tree, r, receipt, m) {
      GoodEntryValidates(c, tree, r, receipt, m);
    }
  }

  // ---------------------------------------------------------------- what may be published

  lemma RiseIsDistinct(files: seq<PackFile>, i: nat, j: nat)
    requires PathsRise(files) && i < |files| && j < |files| && files[i].path == files[j].path
    ensures i == j
  {
    LessIrreflexive(files[i].path);
  }

  lemma {:induction false} DistinctPathsCount(files: seq<PackFile>)
    requires PathsRise(files)
    ensures |PathsOf(files)| == |files|
  {
    if files != [] {
      var n := |files| - 1;
      var front := files[..n];
      DistinctPathsCount(front);
      assert PathsOf(files) == PathsOf(front) + {files[n].path};
      if files[n].path in PathsOf(front) {
        var i :| 0 <= i < n && front[i].path == files[n].path;
        RiseIsDistinct(files, i, n);
      }
    }
  }

  lemma SameSize(a: set<Bytes>, b: set<Bytes>)
    requires a <= b && |a| == |b|
    ensures a == b
  {
    assert b == a + (b - a);
  }

  /** The pack has the digests and the size of the record, describes it, and was probed as it says, and what
      was extracted are exactly the files of its manifest. */
  ghost predicate MayBePublished(c: Codec, job: Job) {
    var pack, r := job.pack, job.record;
    && c.recordOk(r)
    && pack.packSha256 == r.packSha256 && pack.packSize == r.packSize && pack.packManifestSha256 == r.packManifestSha256
    && Describes(pack.manifest, r) && ProbedAs(c, job.probes, r)
    && (forall f :: f in pack.manifest.files ==> f.path in pack.files && pack.files[f.path] == f)
    && (forall path :: path in pack.files ==> exists f :: f in pack.manifest.files && f.path == path)
  }

  lemma FilesAreTheManifests(files: seq<PackFile>, extracted: map<Bytes, PackFile>)
    requires PathsRise(files) && forall f :: f in files ==> f.path in extracted
    ensures |extracted| == |files| <==> forall path :: path in extracted ==> exists f :: f in files && f.path == path
  {
    DistinctPathsCount(files);
    var paths := PathsOf(files);
    forall path
      ensures path in paths <==> exists f :: f in files && f.path == path
    {
      if f :| f in files && f.path == path {
        var i :| 0 <= i < |files| && files[i] == f;
        assert files[i].path == path;
      }
    }
    assert paths <= extracted.Keys && |extracted.Keys| == |extracted|;
    if |extracted| == |files| {
      SameSize(paths, extracted.Keys);
    }
    if forall path :: path in extracted ==> path in paths {
      assert paths == extracted.Keys;
    }
  }

  lemma ExtractedExactly(files: seq<PackFile>, extracted: map<Bytes, PackFile>)
    requires PathsRise(files)
    ensures |extracted| == |files|
            && (forall i :: 0 <= i < |files| ==> files[i].path in extracted && extracted[files[i].path] == files[i])
            <==> && (forall f :: f in files ==> f.path in extracted && extracted[f.path] == f)
                 && forall path :: path in extracted ==> exists f :: f in files && f.path == path
  {
    if forall f :: f in files ==> f.path in extracted {
      FilesAreTheManifests(files, extracted);
    }
    assert forall i :: 0 <= i < |files| ==> files[i] in files;
  }

  /** A verified pack is admitted for publication if and only if it may be published. */
  lemma AdmittedExactly(c: Codec, job: Job)
    requires Verified(c, job.pack)
    ensures Admitted(c, job) <==> MayBePublished(c, job)
  {
    var files := job.pack.manifest.files;
    GoodManifestExactly(c, job.pack.manifest);
    DescribesExactly(c, job.pack.manifest, job.record);
    ProbedExactly(c, job.probes, job.record);
    ExtractedExactly(files, job.pack.files);
  }
}
