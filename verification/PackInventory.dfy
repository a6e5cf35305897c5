/** The archive entries against the pack manifest: `validate_inventory` in
    `collect-diff-context-cli/src/artifacts/pack.rs`. */
module PackInventory {
  import opened ByteStrings
  import opened UstarFormat
  import opened UstarWriter
  import opened UstarInspector
  import UstarAccepted
  import UstarRoundTrip
  import opened PackRecords
  import CacheEntry

  datatype InventoryError = UnexpectedFile | MissingFile

  function ExpectedFiles(packFiles: seq<PackFile>): set<Bytes> {
    {CacheEntry.MANIFEST_FILE} + CacheEntry.PathsOf(packFiles)
  }

  function ObservedFiles(entries: seq<InspectedEntry>): set<Bytes> {
    set i | 0 <= i < |entries| && entries[i].kind == Kind.File :: entries[i].path
  }

  predicate AllowedDirectory(path: Bytes) {
    path == EXECUTABLE_PREFIX || path == LICENSE_PREFIX
  }

  function ValidateInventory(entries: seq<InspectedEntry>, packFiles: seq<PackFile>): Result<(), InventoryError> {
    if !(ObservedFiles(entries) <= ExpectedFiles(packFiles)) then Err(UnexpectedFile)
    else if !(ExpectedFiles(packFiles) <= ObservedFiles(entries)) then Err(MissingFile)
    else if exists i :: 0 <= i < |entries| && entries[i].kind == Directory && !AllowedDirectory(entries[i].path)
    then Err(UnexpectedFile)
    else Ok(())
  }

  /** A file that the manifest does not list comes before one that is missing, and both before a directory
      that a pack may not have. */
  lemma InventoryErrors(entries: seq<InspectedEntry>, packFiles: seq<PackFile>)
    ensures var extra := exists e :: e in entries && e.kind == Kind.File && e.path !in ExpectedFiles(packFiles);
            var deep := exists e :: e in entries && e.kind == Directory && e.path != Ascii("bin/")
                                    && e.path != Ascii("licenses/");
            var missing := exists path :: path in ExpectedFiles(packFiles) && path !in ObservedFiles(entries);
            && (extra ==> ValidateInventory(entries, packFiles) == Err(UnexpectedFile))
            && (!extra && missing ==> ValidateInventory(entries, packFiles) == Err(MissingFile))
            && (!extra && !missing && deep ==> ValidateInventory(entries, packFiles) == Err(UnexpectedFile))
            && (!extra && !missing && !deep ==> ValidateInventory(entries, packFiles) == Ok(()))
  {
    assert EXECUTABLE_PREFIX == Ascii("bin/") && LICENSE_PREFIX == Ascii("licenses/");
    assert forall i :: 0 <= i < |entries| ==> entries[i] in entries;
    if e :| e in entries && e.kind == Kind.File && e.path !in ExpectedFiles(packFiles) {
      var i :| 0 <= i < |entries| && entries[i] == e;
      assert entries[i].path in ObservedFiles(entries);
    }
    if e :| e in entries && e.kind == Directory && e.path != Ascii("bin/") && e.path != Ascii("licenses/") {
      var i :| 0 <= i < |entries| && entries[i] == e;
      assert !AllowedDirectory(entries[i].path);
    }
  }

  function PathsIn(files: seq<(Bytes, ArchiveFile)>): set<Bytes> {
    set i | 0 <= i < |files| :: files[i].0
  }

  /** The only directories above the file are the two that a pack may have. */
  ghost predicate Shallow(path: Bytes) {
    forall d :: IsAncestor(d, path) ==> AllowedDirectory(d)
  }

  ghost predicate CleanFiles(files: seq<(Bytes, ArchiveFile)>) {
    forall i :: 0 <= i < |files| ==> UstarAccepted.CleanPath(files[i].0, Kind.File)
  }

  /** The files that are observed in a written archive are those of the file map. */
  lemma WrittenFiles(files: seq<(Bytes, ArchiveFile)>, entries: seq<Entry>)
    requires EntriesOf(files, entries)
    ensures ObservedFiles(UstarRoundTrip.Expected(entries, 0)) == PathsIn(files)
  {
    var es := UstarRoundTrip.Expected(entries, 0);
    forall path | path in ObservedFiles(es)
      ensures path in PathsIn(files)
    {
      var i :| 0 <= i < |entries| && es[i].kind == Kind.File && es[i].path == path;
      var e := entries[i];
      assert e in entries;
      var k :| 0 <= k < |files| && files[k] == (e.path, e.file.value);
    }
    forall k | 0 <= k < |files|
      ensures files[k].0 in ObservedFiles(es)
    {
      var e := Entry(files[k].0, Some(files[k].1));
      assert files[k] == (e.path, e.file.value) && files[k] in files;
      var i :| 0 <= i < |entries| && entries[i] == e;
      assert es[i].kind == Kind.File;
    }
  }

  /** The directories of a written archive are the ancestors of its files. */
  lemma WrittenDirectories(files: seq<(Bytes, ArchiveFile)>, entries: seq<Entry>, d: Bytes)
    requires EntriesOf(files, entries) && CleanFiles(files)
    ensures Entry(d, None) in entries <==> exists i :: 0 <= i < |files| && IsAncestor(d, files[i].0)
  {
    forall i | 0 <= i < |files|
      ensures d in AncestorDirectories(files[i].0) <==> IsAncestor(d, files[i].0)
    {
      AncestorsExact(files[i].0, d);
    }
    if i :| 0 <= i < |files| && IsAncestor(d, files[i].0) {
      AncestorIsNoFile(files, d, files[i].0);
    }
  }

  /** A clean file path does not end in a slash, as every ancestor does. */
  lemma AncestorIsNoFile(files: seq<(Bytes, ArchiveFile)>, d: Bytes, path: Bytes)
    requires CleanFiles(files) && IsAncestor(d, path)
    ensures !IsFilePath(files, d)
  {
    assert d[|d| - 1] == SLASH;
    assert forall i :: 0 <= i < |files| ==> UstarAccepted.CleanPath(files[i].0, Kind.File);
  }

  /** The inventory of a written pack is accepted exactly when its files are the pack manifest and the
      files that it lists, and none of them lies deeper than "bin/" or "licenses/". */
  lemma WrittenInventory(files: seq<(Bytes, ArchiveFile)>, entries: seq<Entry>, packFiles: seq<PackFile>)
    requires EntriesOf(files, entries) && CleanFiles(files)
    ensures ValidateInventory(UstarRoundTrip.Expected(entries, 0), packFiles) == Ok(()) <==>
            && PathsIn(files) == ExpectedFiles(packFiles)
            && forall i :: 0 <= i < |files| ==> Shallow(files[i].0)
  {
    var es := UstarRoundTrip.Expected(entries, 0);
    WrittenFiles(files, entries);
    if i :| 0 <= i < |es| && es[i].kind == Directory && !AllowedDirectory(es[i].path) {
      assert entries[i] == Entry(es[i].path, None);
      WrittenDirectories(files, entries, es[i].path);
    }
    if i :| 0 <= i < |files| && !Shallow(files[i].0) {
      var d :| IsAncestor(d, files[i].0) && !AllowedDirectory(d);
      WrittenDirectories(files, entries, d);
      var k :| 0 <= k < |entries| && entries[k] == Entry(d, None);
      assert es[k].kind == Directory && es[k].path == d;
    }
  }

  /** A licence in a directory of its own. */
  ghost predicate Nested(f: PackFile) {
    f.role == License && exists directory: Bytes, name: Bytes ::
      directory != [] && f.path == LICENSE_PREFIX + directory + [SLASH] + name
  }

  lemma NestedIsNotShallow(f: PackFile)
    requires Nested(f)
    ensures !Shallow(f.path)
  {
    var directory: Bytes, name: Bytes :|
      directory != [] && f.path == LICENSE_PREFIX + directory + [SLASH] + name;
    var d := LICENSE_PREFIX + directory + [SLASH];
    assert f.path[|d| - 1] == SLASH && f.path[..|d|] == d;
    assert IsAncestor(d, f.path);
  }

  /** The manifest rules allow more: a licence in a directory of its own has a valid role path, but every
      written pack that holds one, and otherwise holds just what its manifest lists, is rejected. */
  lemma NestedLicenseIsRejected(
    files: seq<(Bytes, ArchiveFile)>, entries: seq<Entry>, packFiles: seq<PackFile>, f: PackFile)
    requires EntriesOf(files, entries) && CleanFiles(files)
    requires PathsIn(files) == ExpectedFiles(packFiles) && f in packFiles && Nested(f)
    ensures RolePath(f)
    ensures ValidateInventory(UstarRoundTrip.Expected(entries, 0), packFiles) == Err(UnexpectedFile)
  {
    var i :| 0 <= i < |packFiles| && packFiles[i] == f;
    assert f.path in CacheEntry.PathsOf(packFiles);
    var k :| 0 <= k < |files| && files[k].0 == f.path;
    NestedIsNotShallow(f);
    WrittenInventory(files, entries, packFiles);
    WrittenFiles(files, entries);
  }

  /** For example "licenses/a/b". */
  lemma NestedExample(size: nat, sha256: Bytes)
    ensures Nested(PackFile(LICENSE_PREFIX + [97] + [SLASH] + [98], size, sha256, License))
  {
  }
}
