/** The deterministic archive writer: `collect-diff-context-cli/src/artifacts/writer.rs`.

    The gzip layer is the identity here: an archive is the tar stream itself. */
module UstarWriter {
  import opened ByteStrings
  import opened UstarFormat

  datatype ArchiveFile = ArchiveFile(bytes: Bytes, mode: nat)

  /** One archive entry: a file, or a directory when there is no file. */
  datatype Entry = Entry(path: Bytes, file: Option<ArchiveFile>) {
    function Mode(): nat {
      if file.Some? then file.value.mode else MODE_EXECUTABLE
    }

    function Data(): Bytes {
      if file.Some? then file.value.bytes else []
    }

    function TypeFlag(): byte {
      if file.Some? then FILE_TYPE else DIRECTORY_TYPE
    }

    function KindOf(): Kind {
      if file.Some? then Kind.File else Directory
    }
  }

  datatype WriteError = PathDoesNotFit | NumericOverflow | ChecksumOverflow

  // ---------------------------------------------------------------- paths

  /** A slash that leaves at most 155 bytes before it and 1 to 100 bytes after it. */
  predicate SplitsAt(path: Bytes, i: int) {
    0 <= i < |path| && path[i] == SLASH && i <= 155 && 0 < |path| - i - 1 <= 100
  }

  /** The last usable slash before `end`. */
  function LastSplit(path: Bytes, end: nat): (r: Option<nat>)
    requires end <= |path|
    ensures r.None? ==> forall i :: 0 <= i < end ==> !SplitsAt(path, i)
    ensures r.Some? ==> r.value < end && SplitsAt(path, r.value)
                        && forall i :: r.value < i < end ==> !SplitsAt(path, i)
  {
    if end == 0 then None
    else if SplitsAt(path, end - 1) then Some(end - 1)
    else LastSplit(path, end - 1)
  }

  /** The prefix and name fields of a path. */
  function SplitUstarPath(path: Bytes): (r: Result<(Bytes, Bytes), WriteError>)
    ensures r.Ok? ==> |r.value.0| <= 155 && |r.value.1| <= 100
    ensures r.Err? <==> |path| > 100 && forall i :: !SplitsAt(path, i)
  {
    if |path| <= 100 then Ok(([], path))
    else
      match LastSplit(path, |path|)
      case None => Err(PathDoesNotFit)
      case Some(i) => Ok((path[..i], path[i + 1..]))
  }

  /** The two fields rejoin to the path, unless the path is so long that it must be split at a
      leading slash. */
  lemma SplitRejoins(path: Bytes)
    requires SplitUstarPath(path).Ok?
    ensures var fields := SplitUstarPath(path).value;
            Join(fields.0, fields.1) == path
            <==> |path| <= 100 || LastSplit(path, |path|) != Some(0)
  {
    if |path| > 100 {
      var i := LastSplit(path, |path|).value;
      CutRejoins(path, i);
    }
  }

  lemma CutRejoins(path: Bytes, i: nat)
    requires i < |path| && path[i] == SLASH
    ensures Join(path[..i], path[i + 1..]) == path <==> i > 0
  {
    if i == 0 {
      assert |Join(path[..0], path[1..])| == |path| - 1;
    } else {
      assert path == path[..i] + [SLASH] + path[i + 1..];
    }
  }

  // ---------------------------------------------------------------- one entry

  /** The bytes of one entry: header, data, and zero padding up to a block boundary. */
  function EntryBytes(e: Entry): Result<Bytes, WriteError> {
    match SplitUstarPath(e.path)
    case Err(error) => Err(error)
    case Ok((prefix, name)) =>
      if e.Mode() >= Pow8(7) || |e.Data()| >= Pow8(11) then Err(NumericOverflow)
      else
        Ok(Header(prefix, name, e.Mode(), |e.Data()|, e.TypeFlag())
           + e.Data() + Repeat(NUL, Padding(|e.Data()|)))
  }

  /** `copy_from_slice` into a part of the header. */
  method CopyInto(header: array<byte>, at: nat, source: Bytes)
    requires at + |source| <= header.Length
    modifies header
    ensures forall i :: 0 <= i < header.Length ==>
      header[i] == if at <= i < at + |source| then source[i - at] else old(header[i])
  {
    forall i | 0 <= i < |source| {
      header[at + i] := source[i];
    }
  }

  method WriteOctal(header: array<byte>, lo: nat, hi: nat, value: nat) returns (ok: bool)
    requires lo + 1 < hi <= header.Length
    modifies header
    ensures ok <==> value < Pow8(hi - lo - 1)
    ensures ok ==> |NumericField(value, hi - lo)| == hi - lo
    ensures forall i :: 0 <= i < header.Length ==>
      header[i] == if ok && lo <= i < hi then NumericField(value, hi - lo)[i - lo] else old(header[i])
  {
    var digits := hi - lo - 1;
    var encoded := Padded(value, digits);
    PaddedFits(value, digits);
    if |encoded| != digits {
      return false;
    }
    CopyInto(header, lo, encoded);
    header[lo + digits] := NUL;
    ok := true;
  }

  /** The five numeric fields. */
  method FillNumbers(header: array<byte>, mode: nat, size: nat) returns (ok: bool)
    requires header.Length == BLOCK
    modifies header
    ensures ok <==> mode < Pow8(7) && size < Pow8(11)
    ensures ok ==> forall i :: 0 <= i < BLOCK ==>
      header[i] == if 100 <= i < 148 then HeaderByte([], [], mode, size, 0, [], i) else old(header[i])
  {
    PaddedFits(0, 7);
    PaddedFits(0, 11);
    ok := WriteOctal(header, 100, 108, mode);
    if !ok {
      return;
    }
    ok := WriteOctal(header, 108, 116, 0);
    ok := WriteOctal(header, 116, 124, 0);
    ok := WriteOctal(header, 124, 136, size);
    if !ok {
      return;
    }
    ok := WriteOctal(header, 136, 148, 0);
  }

  /** Fills every field of a zeroed header, with spaces for the checksum. */
  method FillHeader(header: array<byte>, prefix: Bytes, name: Bytes, mode: nat, size: nat,
                    entryType: byte) returns (ok: bool)
    requires header.Length == BLOCK && forall i :: 0 <= i < BLOCK ==> header[i] == NUL
    requires |prefix| <= 155 && |name| <= 100
    modifies header
    ensures ok <==> mode < Pow8(7) && size < Pow8(11)
    ensures ok ==> header[..] == HeaderWith(prefix, name, mode, size, entryType, Repeat(SPACE, 8))
  {
    CopyInto(header, 0, name);
    CopyInto(header, 345, prefix);
    assert forall i :: 0 <= i < BLOCK ==>
      header[i] == if i < 100 then At(name, i) else if 345 <= i < 500 then At(prefix, i - 345) else NUL;
    ok := FillNumbers(header, mode, size);
    if !ok {
      return;
    }
    FillMarks(header, entryType);
  }

  /** The checksum placeholder, the type, and the format's magic and version. */
  method FillMarks(header: array<byte>, entryType: byte)
    requires header.Length == BLOCK
    modifies header
    ensures forall i :: 0 <= i < BLOCK ==>
      header[i] == if 148 <= i <= 156 || 257 <= i < 265
                   then HeaderByte([], [], 0, 0, entryType, Repeat(SPACE, 8), i) else old(header[i])
  {
    CopyInto(header, 148, Repeat(SPACE, 8));
    header[156] := entryType;
    CopyInto(header, 257, MAGIC);
    CopyInto(header, 263, VERSION);
  }

  /** The growing output buffer. */
  class ArchiveOutput {
    var output: Bytes

    constructor ()
      ensures output == []
    {
      output := [];
    }

    method AppendUstarEntry(e: Entry) returns (r: Result<(), WriteError>)
      modifies this
      ensures EntryBytes(e).Ok? ==> r == Ok(()) && output == old(output) + EntryBytes(e).value
      ensures EntryBytes(e).Err? ==> r == Err(EntryBytes(e).error) && output == old(output)
    {
      var header := new byte[BLOCK](_ => NUL);
      var fields := SplitUstarPath(e.path);
      if fields.Err? {
        return Err(fields.error);
      }
      var (prefix, name) := fields.value;
      var filled := FillHeader(header, prefix, name, e.Mode(), |e.Data()|, e.TypeFlag());
      if !filled {
        return Err(NumericOverflow);
      }
      var checksum := ChecksumField(Sum(header[..]));
      ChecksumFits(header[..]);
      if |checksum| != 8 {
        return Err(ChecksumOverflow);
      }
      ghost var blank := header[..];
      CopyInto(header, 148, checksum);
      assert header[..] == Header(prefix, name, e.Mode(), |e.Data()|, e.TypeFlag()) by {
        ghost var h := Header(prefix, name, e.Mode(), |e.Data()|, e.TypeFlag());
        forall i | 0 <= i < BLOCK
          ensures header[i] == h[i]
        {
          assert blank[i] == HeaderByte(prefix, name, e.Mode(), |e.Data()|, e.TypeFlag(), Repeat(SPACE, 8), i);
        }
      }
      output := output + header[..] + e.Data() + Repeat(NUL, Padding(|e.Data()|));
      assert output == old(output) + EntryBytes(e).value;
      r := Ok(());
    }
  }

  // ---------------------------------------------------------------- whole archives

  /** All entries, one after another; the first entry that cannot be written decides the error. */
  function Body(entries: seq<Entry>): Result<Bytes, WriteError> {
    if entries == [] then Ok([])
    else
      match EntryBytes(entries[0])
      case Err(error) => Err(error)
      case Ok(first) =>
        match Body(entries[1..])
        case Err(error) => Err(error)
        case Ok(rest) => Ok(first + rest)
  }

  const END_BLOCKS: nat := 1024

  function ArchiveOf(entries: seq<Entry>): Result<Bytes, WriteError> {
    match Body(entries)
    case Err(error) => Err(error)
    case Ok(bytes) => Ok(bytes + Repeat(NUL, END_BLOCKS))
  }

  ghost predicate SortedEntries(entries: seq<Entry>) {
    forall i, j :: 0 <= i < j < |entries| ==> Less(entries[i].path, entries[j].path)
  }

  /** `BTreeMap::insert`: a later value replaces an earlier one. */
  function Put(entries: seq<Entry>, e: Entry): (r: seq<Entry>)
    requires SortedEntries(entries)
    ensures SortedEntries(r)
    ensures forall x :: x in r <==> x == e || (x in entries && x.path != e.path)
  {
    if entries == [] then [e]
    else
      var first, rest := entries[0], entries[1..];
      assert entries == [first] + rest;
      LessIrreflexive(first.path);
      assert forall x :: x in rest ==> Less(first.path, x.path);
      if e.path == first.path then [e] + rest
      else if Less(e.path, first.path) then
        assert forall x :: x in rest ==> Less(e.path, x.path) by {
          forall x | x in rest
            ensures Less(e.path, x.path)
          {
            LessTransitive(e.path, first.path, x.path);
          }
        }
        LessIrreflexive(e.path);
        [e] + entries
      else
        LessTotal(e.path, first.path);
        var tail := Put(rest, e);
        assert forall i :: 0 <= i < |tail| ==> tail[i] in tail;
        [first] + tail
  }

  function Lead(prefix: Bytes): Bytes {
    if prefix == [] then [] else prefix + [SLASH]
  }

  /** The directories named by `parts`, each with a trailing slash, starting below `prefix`. */
  function Ancestors(parts: seq<Bytes>, prefix: Bytes): seq<Bytes> {
    if parts == [] then []
    else
      var deeper := Lead(prefix) + parts[0];
      [deeper + [SLASH]] + Ancestors(parts[1..], deeper)
  }

  /** All parts of a path but the last. */
  function Parents(path: Bytes): seq<Bytes> {
    var parts := Split(path, SLASH);
    parts[..|parts| - 1]
  }

  function AncestorDirectories(path: Bytes): seq<Bytes> {
    Ancestors(Parents(path), [])
  }

  /** Every proper ancestor of a path, written with its trailing slash. */
  ghost predicate IsAncestor(d: Bytes, path: Bytes) {
    exists i :: 0 <= i < |path| && path[i] == SLASH && d == path[..i + 1]
  }

  ghost predicate CutAt(lead: Bytes, s: Bytes, d: Bytes, i: int) {
    0 <= i < |s| && s[i] == SLASH && d == lead + s[..i + 1]
  }

  lemma CutAfterFirst(lead: Bytes, s: Bytes, d: Bytes, i: int)
    requires SLASH in s
    ensures var k := IndexOf(s, SLASH);
            CutAt(lead, s, d, i) <==>
            (i == k && d == lead + s[..k] + [SLASH])
            || (i > k && CutAt(lead + s[..k] + [SLASH], s[k + 1..], d, i - k - 1))
  {
    var k := IndexOf(s, SLASH);
    if 0 <= i < k {
      assert s[i] in s[..k];
    } else if i == k {
      assert lead + s[..k + 1] == lead + s[..k] + [SLASH];
    } else if k < i < |s| {
      CutBeyond(lead, s, k, i);
    }
  }

  lemma CutBeyond(lead: Bytes, s: Bytes, k: nat, i: nat)
    requires k < i < |s| && s[k] == SLASH
    ensures lead + s[..i + 1] == lead + s[..k] + [SLASH] + s[k + 1..][..i - k]
    ensures s[i] == s[k + 1..][i - k - 1]
  {
    assert s[..i + 1] == s[..k] + [SLASH] + s[k + 1..][..i - k];
  }

  ghost predicate SomeCut(lead: Bytes, s: Bytes, d: Bytes) {
    exists i :: CutAt(lead, s, d, i)
  }

  lemma SomeCutAfterFirst(lead: Bytes, s: Bytes, d: Bytes)
    requires SLASH in s
    ensures var k := IndexOf(s, SLASH);
            SomeCut(lead, s, d) <==>
            d == lead + s[..k] + [SLASH] || SomeCut(lead + s[..k] + [SLASH], s[k + 1..], d)
  {
    var k := IndexOf(s, SLASH);
    var deeper, rest := lead + s[..k] + [SLASH], s[k + 1..];
    if i :| CutAt(lead, s, d, i) {
      CutAfterFirst(lead, s, d, i);
    }
    if d == deeper {
      CutAfterFirst(lead, s, d, k);
    }
    if i :| CutAt(deeper, rest, d, i) {
      CutAfterFirst(lead, s, d, i + k + 1);
    }
  }

  lemma ParentsStep(s: Bytes)
    requires SLASH in s
    ensures var k := IndexOf(s, SLASH);
            Parents(s) == [s[..k]] + Parents(s[k + 1..])
  {
  }

  lemma AncestorsStep(s: Bytes, prefix: Bytes)
    requires SLASH in s
    ensures var k := IndexOf(s, SLASH);
            var deeper := Lead(prefix) + s[..k];
            Ancestors(Parents(s), prefix) == [deeper + [SLASH]] + Ancestors(Parents(s[k + 1..]), deeper)
  {
    var k := IndexOf(s, SLASH);
    ParentsStep(s);
    assert Parents(s)[1..] == Parents(s[k + 1..]);
  }

  lemma {:induction false} AncestorsBelow(s: Bytes, prefix: Bytes, d: Bytes)
    requires prefix != [] || s == [] || s[0] != SLASH
    ensures d in Ancestors(Parents(s), prefix) <==> SomeCut(Lead(prefix), s, d)
    decreases |s|
  {
    var k := IndexOf(s, SLASH);
    if k < |s| {
      var rest := s[k + 1..];
      var deeper := Lead(prefix) + s[..k];
      assert |deeper| > 0;
      AncestorsBelow(rest, deeper, d);
      AncestorsStep(s, prefix);
      SomeCutAfterFirst(Lead(prefix), s, d);
    } else {
      assert Parents(s) == [];
    }
  }

  /** The directories the writer creates for a relative path are exactly its ancestors. */
  lemma AncestorsExact(path: Bytes, d: Bytes)
    requires path == [] || path[0] != SLASH
    ensures d in AncestorDirectories(path) <==> IsAncestor(d, path)
  {
    AncestorsBelow(path, [], d);
    if IsAncestor(d, path) {
      var i :| 0 <= i < |path| && path[i] == SLASH && d == path[..i + 1];
      assert [] + path[..i + 1] == path[..i + 1];
      assert CutAt([], path, d, i);
    }
    if i :| CutAt([], path, d, i) {
      assert [] + path[..i + 1] == path[..i + 1];
    }
  }

  ghost predicate SortedFiles(files: seq<(Bytes, ArchiveFile)>) {
    forall i, j :: 0 <= i < j < |files| ==> Less(files[i].0, files[j].0)
  }

  ghost predicate IsFilePath(files: seq<(Bytes, ArchiveFile)>, path: Bytes) {
    exists i :: 0 <= i < |files| && files[i].0 == path
  }

  ghost predicate IsDirectoryOf(files: seq<(Bytes, ArchiveFile)>, d: Bytes) {
    exists i :: 0 <= i < |files| && d in AncestorDirectories(files[i].0)
  }

  /** The entries of a file map: every file, and every ancestor directory that is not itself the
      path of a file, in path order. */
  ghost predicate EntriesOf(files: seq<(Bytes, ArchiveFile)>, entries: seq<Entry>) {
    && SortedEntries(entries)
    && (forall e :: e in entries <==>
          if e.file.Some? then (e.path, e.file.value) in files
          else IsDirectoryOf(files, e.path) && !IsFilePath(files, e.path))
  }

  method NormalizedArchive(files: seq<(Bytes, ArchiveFile)>) returns (r: Result<Bytes, WriteError>)
    requires SortedFiles(files)
    ensures exists entries :: EntriesOf(files, entries) && r == ArchiveOf(entries)
  {
    var directories := CollectDirectories(files);
    var entries := MergeEntries(directories, files);
    assert EntriesOf(files, entries);
    r := AppendAll(entries);
  }

  method CollectDirectories(files: seq<(Bytes, ArchiveFile)>) returns (directories: seq<Bytes>)
    ensures Ascending(directories)
    ensures forall d :: d in directories <==> IsDirectoryOf(files, d)
  {
    directories := [];
    for n := 0 to |files|
      invariant Ascending(directories)
      invariant forall d :: d in directories <==> IsDirectoryOf(files[..n], d)
    {
      directories := InsertAncestors(directories, files[n].0);
      assert files[..n + 1] == files[..n] + [files[n]];
      forall d
        ensures IsDirectoryOf(files[..n + 1], d)
            <==> IsDirectoryOf(files[..n], d) || d in AncestorDirectories(files[n].0)
      {
        DirectoryOfNext(files[..n], files[n], d);
      }
    }
    assert files[..|files|] == files;
  }

  method MergeEntries(directories: seq<Bytes>, files: seq<(Bytes, ArchiveFile)>)
    returns (entries: seq<Entry>)
    requires Ascending(directories) && SortedFiles(files)
    ensures SortedEntries(entries)
    ensures forall e :: e in entries <==>
      if e.file.Some? then (e.path, e.file.value) in files
      else e.path in directories && !IsFilePath(files, e.path)
  {
    entries := seq(|directories|, i requires 0 <= i < |directories| => Entry(directories[i], None));
    forall e: Entry | e.file.None? && e.path in directories
      ensures e in entries
    {
      var i :| 0 <= i < |directories| && directories[i] == e.path;
      assert entries[i] == e;
    }
    for n := 0 to |files|
      invariant SortedEntries(entries)
      invariant forall e :: e in entries <==>
        if e.file.Some? then (e.path, e.file.value) in files[..n]
        else e.path in directories && !IsFilePath(files[..n], e.path)
    {
      entries := Put(entries, Entry(files[n].0, Some(files[n].1)));
      assert files[..n + 1] == files[..n] + [files[n]];
      forall e: Entry
        ensures IsFilePath(files[..n + 1], e.path) <==> IsFilePath(files[..n], e.path) || e.path == files[n].0
      {
        FilePathNext(files[..n], files[n], e.path);
      }
      forall f | f in files[..n]
        ensures f.0 != files[n].0
      {
        LessIrreflexive(f.0);
      }
    }
    assert files[..|files|] == files;
  }

  function Prepend(written: Bytes, rest: Result<Bytes, WriteError>): Result<Bytes, WriteError> {
    match rest
    case Err(error) => Err(error)
    case Ok(bytes) => Ok(written + bytes)
  }

  lemma BodyStep(written: Bytes, entries: seq<Entry>)
    requires entries != []
    ensures match EntryBytes(entries[0])
            case Err(error) => Prepend(written, Body(entries)) == Err(error)
            case Ok(first) => Prepend(written, Body(entries)) == Prepend(written + first, Body(entries[1..]))
  {
    if EntryBytes(entries[0]).Ok? && Body(entries[1..]).Ok? {
      var first, rest := EntryBytes(entries[0]).value, Body(entries[1..]).value;
      assert written + (first + rest) == (written + first) + rest;
    }
  }

  method AppendAll(entries: seq<Entry>) returns (r: Result<Bytes, WriteError>)
    ensures r == ArchiveOf(entries)
  {
    var tar := new ArchiveOutput();
    assert entries[0..] == entries;
    ghost var expected := Body(entries);
    assert expected.Ok? ==> [] + expected.value == expected.value;
    for n := 0 to |entries|
      invariant expected == Prepend(tar.output, Body(entries[n..]))
    {
      BodyStep(tar.output, entries[n..]);
      var appended := tar.AppendUstarEntry(entries[n]);
      assert entries[n..][1..] == entries[n + 1..];
      if appended.Err? {
        return Err(appended.error);
      }
    }
    assert tar.output + [] == tar.output;
    r := Ok(tar.output + Repeat(NUL, END_BLOCKS));
  }

  lemma DirectoryOfNext(files: seq<(Bytes, ArchiveFile)>, f: (Bytes, ArchiveFile), d: Bytes)
    ensures IsDirectoryOf(files + [f], d) <==> IsDirectoryOf(files, d) || d in AncestorDirectories(f.0)
  {
    var all := files + [f];
    assert all[|files|] == f;
    if IsDirectoryOf(files, d) {
      var i :| 0 <= i < |files| && d in AncestorDirectories(files[i].0);
      assert all[i] == files[i];
    }
  }

  lemma FilePathNext(files: seq<(Bytes, ArchiveFile)>, f: (Bytes, ArchiveFile), path: Bytes)
    ensures IsFilePath(files + [f], path) <==> IsFilePath(files, path) || path == f.0
  {
    var all := files + [f];
    assert all[|files|] == f;
    if IsFilePath(files, path) {
      var i :| 0 <= i < |files| && files[i].0 == path;
      assert all[i] == files[i];
    }
  }

  /** The inner loop of the writer: adds each ancestor of one path to the directory set. */
  method InsertAncestors(directories: seq<Bytes>, path: Bytes) returns (r: seq<Bytes>)
    requires Ascending(directories)
    ensures Ascending(r)
    ensures forall d :: d in r <==> d in directories || d in AncestorDirectories(path)
  {
    var parts := Split(path, SLASH);
    var prefix: Bytes := [];
    r := directories;
    ghost var last := |parts| - 1;
    for n := 0 to |parts| - 1
      invariant Ascending(r)
      invariant forall d :: d in r || d in Ancestors(parts[n..last], prefix)
                       <==> d in directories || d in AncestorDirectories(path)
    {
      assert parts[n..last][1..] == parts[n + 1..last];
      ghost var rest, parent := Ancestors(parts[n..last], prefix), prefix;
      if prefix != [] {
        prefix := prefix + [SLASH];
      }
      prefix := prefix + parts[n];
      r := InsertKey(r, prefix + [SLASH]);
      assert prefix == Lead(parent) + parts[n];
      assert rest == [prefix + [SLASH]] + Ancestors(parts[n + 1..last], prefix);
    }
  }
}
