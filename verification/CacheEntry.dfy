/** What a published cache entry must be: `validate_cache_entry` in
    `collect-diff-context-cli/src/artifacts/cache.rs`, and the files that a publisher stages. */
module CacheEntry {
  import opened ByteStrings
  import opened PackRecords
  import opened FileTrees

  const RECEIPT_FILE: Bytes := Ascii("cache-receipt.json")
  const MANIFEST_FILE: Bytes := Ascii("pack-manifest.json")
  const MAX_CACHE_FILES: nat := 130

  function PathsOf(files: seq<PackFile>): set<Bytes> {
    set i | 0 <= i < |files| :: files[i].path
  }

  /** `verify_binding`. */
  predicate FileBound(c: Codec, tree: Tree, f: PackFile) {
    f.path in tree && |tree[f.path]| == f.size && c.hash(tree[f.path]) == f.sha256
  }

  predicate AllBound(c: Codec, tree: Tree, files: seq<PackFile>) {
    forall i :: 0 <= i < |files| ==> FileBound(c, tree, files[i])
  }

  /** `read_bounded`. */
  function ReadBounded(tree: Tree, path: Bytes): Option<Bytes> {
    if path in tree && |tree[path]| <= MAX_MANIFEST_BYTES then Some(tree[path]) else None
  }

  /** Canonical JSON read from a file. */
  function ReadReceipt(c: Codec, tree: Tree): Option<CacheReceipt> {
    match ReadBounded(tree, RECEIPT_FILE)
    case None => None
    case Some(bytes) =>
      match c.readCache(bytes)
      case None => None
      case Some(receipt) => if c.cacheJson(receipt) == bytes then Some(receipt) else None
  }

  /** The pack manifest that a digest binds, found at a path. */
  function ReadManifest(c: Codec, tree: Tree, path: Bytes, sha256: Bytes): Option<PackManifest> {
    match ReadBounded(tree, path)
    case None => None
    case Some(bytes) =>
      if c.hash(bytes) != sha256 then None
      else
        match c.readManifest(bytes)
        case None => None
        case Some(m) => if ManifestOk(c, m) && c.manifestJson(m) == bytes then Some(m) else None
  }

  /** Every error is the same one to the caller. */
  function ValidateEntry(c: Codec, tree: Tree, r: PackRecord): Option<CacheReceipt> {
    match (ReadReceipt(c, tree), ReadManifest(c, tree, MANIFEST_FILE, r.packManifestSha256))
    case (Some(receipt), Some(m)) =>
      if !CacheReceiptOk(c, receipt, m, r) || !ManifestMatches(m, r) then None
      else if !AllBound(c, tree, receipt.files) then None
      else if tree.Keys != {RECEIPT_FILE, MANIFEST_FILE} + PathsOf(receipt.files) then None
      else if |tree.Keys| > MAX_CACHE_FILES then None
      else Some(receipt)
    case _ => None
  }

  // ---------------------------------------------------------------- staging

  /** What `verify_pack` returns; `files` are the extracted files. */
  datatype VerifiedPack = VerifiedPack(
    manifest: PackManifest, packSize: nat, packSha256: Bytes, packManifestSha256: Bytes, files: map<Bytes, PackFile>)

  datatype Job = Job(pack: VerifiedPack, record: PackRecord, probes: seq<Probe>)

  /** A verified pack holds a manifest that passed its checks, and the digest of its bytes. */
  ghost predicate Verified(c: Codec, pack: VerifiedPack) {
    ManifestOk(c, pack.manifest) && c.hash(c.manifestJson(pack.manifest)) == pack.packManifestSha256
  }

  /** The checks before anything is staged. */
  predicate Admitted(c: Codec, job: Job) {
    var pack, r := job.pack, job.record;
    && c.recordOk(r)
    && pack.packSha256 == r.packSha256 && pack.packSize == r.packSize && pack.packManifestSha256 == r.packManifestSha256
    && ManifestMatches(pack.manifest, r)
    && |pack.files| == |pack.manifest.files|
    && (forall i :: 0 <= i < |pack.manifest.files| ==>
          var f := pack.manifest.files[i]; f.path in pack.files && pack.files[f.path] == f)
    && ProbesOk(c, job.probes, r)
  }

  function ReceiptOf(job: Job): CacheReceipt {
    var pack, r := job.pack, job.record;
    CacheReceipt(r.artifactId, r.toolVersion, r.packVersion, r.platformId, pack.packSize,
                 pack.packSha256, pack.packManifestSha256, pack.manifest.files, job.probes)
  }

  function Copies(files: seq<PackFile>): (items: seq<Item>)
    ensures |items| == |files|
    ensures forall i :: 0 <= i < |files| ==> items[i] == Copied(files[i].path, files[i].size, files[i].sha256)
  {
    seq(|files|, i requires 0 <= i < |files| => Copied(files[i].path, files[i].size, files[i].sha256))
  }

  /** The files of a staging directory in the order in which they are written. */
  function StagedItems(c: Codec, job: Job): seq<Item> {
    Copies(job.pack.manifest.files)
    + [Written(MANIFEST_FILE, c.manifestJson(job.pack.manifest)), Written(RECEIPT_FILE, c.cacheJson(ReceiptOf(job)))]
  }

  // ---------------------------------------------------------------- a staged tree validates

  lemma {:induction false} FewPaths(files: seq<PackFile>)
    ensures |PathsOf(files)| <= |files|
  {
    if files != [] {
      var rest := files[..|files| - 1];
      FewPaths(rest);
      assert PathsOf(files) == PathsOf(rest) + {files[|files| - 1].path};
    }
  }

  lemma StagedPaths(c: Codec, job: Job)
    ensures Owned(StagedItems(c, job), Creating(|StagedItems(c, job)|))
         == {RECEIPT_FILE, MANIFEST_FILE} + PathsOf(job.pack.manifest.files)
  {
    var files, items := job.pack.manifest.files, StagedItems(c, job);
    assert items[|files|].path == MANIFEST_FILE && items[|files| + 1].path == RECEIPT_FILE;
    assert forall i :: 0 <= i < |files| ==> items[i].path == files[i].path;
  }

  lemma StagedReads(c: Codec, job: Job, tree: Tree)
    requires Faithful(c) && Verified(c, job.pack) && |c.cacheJson(ReceiptOf(job))| <= MAX_MANIFEST_BYTES
    requires MANIFEST_FILE in tree && tree[MANIFEST_FILE] == c.manifestJson(job.pack.manifest)
    requires RECEIPT_FILE in tree && tree[RECEIPT_FILE] == c.cacheJson(ReceiptOf(job))
    ensures ReadReceipt(c, tree) == Some(ReceiptOf(job))
    ensures ReadManifest(c, tree, MANIFEST_FILE, job.pack.packManifestSha256) == Some(job.pack.manifest)
  {
  }

  lemma EntryValidates(c: Codec, tree: Tree, r: PackRecord, receipt: CacheReceipt, m: PackManifest)
    requires ReadReceipt(c, tree) == Some(receipt)
    requires ReadManifest(c, tree, MANIFEST_FILE, r.packManifestSha256) == Some(m)
    requires CacheReceiptOk(c, receipt, m, r) && ManifestMatches(m, r)
    requires AllBound(c, tree, m.files)
    requires tree.Keys == {RECEIPT_FILE, MANIFEST_FILE} + PathsOf(m.files) && |m.files| <= 127
    ensures ValidateEntry(c, tree, r) == Some(receipt)
  {
    FewPaths(m.files);
  }

  /** The finished staging directory passes the validation that every opener runs, and gives back the
      publisher's own receipt; the inventory limit is never reached. */
  lemma StagedEntryValidates(c: Codec, job: Job, tree: Tree)
    requires Faithful(c) && Verified(c, job.pack) && Admitted(c, job)
    requires CacheReceiptOk(c, ReceiptOf(job), job.pack.manifest, job.record)
    requires InPlace(c.hash, StagedItems(c, job), Creating(|StagedItems(c, job)|), tree)
    requires tree.Keys == Owned(StagedItems(c, job), Creating(|StagedItems(c, job)|))
    ensures ValidateEntry(c, tree, job.record) == Some(ReceiptOf(job))
  {
    var files, items := job.pack.manifest.files, StagedItems(c, job);
    assert items[|files|] == Written(MANIFEST_FILE, c.manifestJson(job.pack.manifest));
    assert items[|files| + 1] == Written(RECEIPT_FILE, c.cacheJson(ReceiptOf(job)));
    forall i | 0 <= i < |files|
      ensures FileBound(c, tree, files[i])
    {
      assert items[i] == Copies(files)[i];
    }
    StagedPaths(c, job);
    StagedReads(c, job, tree);
    EntryValidates(c, tree, job.record, ReceiptOf(job), job.pack.manifest);
  }

  lemma SameManifest(c: Codec, s: Tree, t: Tree, r: PackRecord)
    requires Injective(c.hash) && ValidateEntry(c, s, r).Some? && ValidateEntry(c, t, r).Some?
    ensures MANIFEST_FILE in s && MANIFEST_FILE in t && s[MANIFEST_FILE] == t[MANIFEST_FILE]
    ensures ValidateEntry(c, s, r).value.files == ValidateEntry(c, t, r).value.files
  {
    assert c.hash(s[MANIFEST_FILE]) == r.packManifestSha256 == c.hash(t[MANIFEST_FILE]);
  }

  lemma BoundFilesAgree(c: Codec, s: Tree, t: Tree, files: seq<PackFile>)
    requires Injective(c.hash) && AllBound(c, s, files) && AllBound(c, t, files)
    ensures forall path :: path in PathsOf(files) ==> path in s && path in t && s[path] == t[path]
  {
    forall path | path in PathsOf(files)
      ensures path in s && path in t && s[path] == t[path]
    {
      var i :| 0 <= i < |files| && files[i].path == path;
      assert FileBound(c, s, files[i]) && FileBound(c, t, files[i]);
    }
  }

  /** A record determines its cache entry: any two entries that validate against it have the same files
      with the same contents, apart from the receipt, which holds the evidence of its own publisher. */
  lemma RecordDeterminesEntry(c: Codec, s: Tree, t: Tree, r: PackRecord)
    requires Injective(c.hash) && ValidateEntry(c, s, r).Some? && ValidateEntry(c, t, r).Some?
    ensures s.Keys == t.Keys
    ensures forall path :: path in s && path != RECEIPT_FILE ==> s[path] == t[path]
  {
    SameManifest(c, s, t, r);
    BoundFilesAgree(c, s, t, ValidateEntry(c, s, r).value.files);
  }
}
