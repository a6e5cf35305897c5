/** Inspecting what the writer wrote. */
module UstarRoundTrip {
  import opened ByteStrings
  import opened UstarFormat
  import opened UstarWriter
  import opened UstarHeader
  import opened UstarInspector
  import opened UstarAccepted
  import Utf8

  /** The numbers fit their fields. */
  ghost predicate NumbersFit(e: Entry) {
    e.Mode() < Pow8(7) && |e.Data()| < Pow8(11)
  }

  ghost predicate Writable(e: Entry) {
    SplitUstarPath(e.path).Ok? && NumbersFit(e)
  }

  ghost function WrittenHeader(e: Entry): (h: Bytes)
    requires Writable(e)
    ensures |h| == BLOCK
  {
    var (prefix, name) := SplitUstarPath(e.path).value;
    Header(prefix, name, e.Mode(), |e.Data()|, e.TypeFlag())
  }

  // ---------------------------------------------------------------- reading single fields back

  lemma NumberField(h: Bytes, prefix: Bytes, name: Bytes, mode: nat, size: nat, entryType: byte,
                    at: nat, width: nat, value: nat)
    requires h == Header(prefix, name, mode, size, entryType)
    requires (at, width, value) in {(100, 8, mode), (108, 8, 0), (116, 8, 0), (124, 12, size), (136, 12, 0)}
    requires value < Pow8(width - 1)
    ensures h[at..at + width] == NumericField(value, width)
  {
    PaddedFits(value, width - 1);
  }

  lemma NumberFields(h: Bytes, prefix: Bytes, name: Bytes, mode: nat, size: nat, entryType: byte)
    requires h == Header(prefix, name, mode, size, entryType)
    requires mode < Pow8(7) && size < Pow8(11)
    ensures h[100..108] == NumericField(mode, 8)
    ensures h[108..116] == NumericField(0, 8)
    ensures h[116..124] == NumericField(0, 8)
    ensures h[124..136] == NumericField(size, 12)
    ensures h[136..148] == NumericField(0, 12)
  {
    NumberField(h, prefix, name, mode, size, entryType, 100, 8, mode);
    NumberField(h, prefix, name, mode, size, entryType, 108, 8, 0);
    NumberField(h, prefix, name, mode, size, entryType, 116, 8, 0);
    NumberField(h, prefix, name, mode, size, entryType, 124, 12, size);
    NumberField(h, prefix, name, mode, size, entryType, 136, 12, 0);
  }

  lemma FixedFields(h: Bytes, prefix: Bytes, name: Bytes, mode: nat, size: nat, entryType: byte)
    requires h == Header(prefix, name, mode, size, entryType)
    ensures h[156] == entryType
    ensures h[257..263] == MAGIC && h[263..265] == VERSION
    ensures AllZero(h[157..257]) && AllZero(h[265..329])
    ensures AllZero(h[329..337]) && AllZero(h[337..345]) && AllZero(h[500..512])
  {
  }

  lemma TextFields(h: Bytes, prefix: Bytes, name: Bytes, mode: nat, size: nat, entryType: byte)
    requires h == Header(prefix, name, mode, size, entryType)
    requires |name| <= 100 && |prefix| <= 155
    ensures h[..100] == name + Repeat(NUL, 100 - |name|)
    ensures h[345..500] == prefix + Repeat(NUL, 155 - |prefix|)
  {
  }

  lemma WrittenChecksumIsValid(h: Bytes)
    requires |h| == BLOCK && Checksum(h) < Pow8(6)
    requires h[148..156] == ChecksumField(Checksum(h))
    ensures ValidateChecksum(h) == Ok(())
  {
    var sum := Checksum(h);
    PaddedFits(sum, 6);
    var field := h[148..156];
    forall i | 148 <= i < 156
      ensures h[i] == field[i - 148]
    {
    }
    assert h[148..155] == NumericField(sum, 7);
    ParseUndoesWrite(sum, 7);
  }

  lemma NulPaddedText(text: Bytes, n: nat)
    requires NUL !in text
    ensures ParseNulPadded(text + Repeat(NUL, n)) == Ok(text)
  {
    var field := text + Repeat(NUL, n);
    if n == 0 {
      assert field == text;
    } else {
      assert field[..|text|] == text;
      IndexOfFirst(field, NUL, |text|);
      assert forall i :: |text| <= i < |field| ==> field[i] == NUL;
    }
  }

  // ---------------------------------------------------------------- reading one header back

  /** What reading a header comes to when its path field reads as `path`. */
  ghost function Decide(path: Result<Bytes, InspectError>, e: Entry, limits: Limits): Result<HeaderInfo, InspectError> {
    match path
    case Err(error) => Err(error)
    case Ok(p) =>
      if e.Mode() != ExpectedMode(p, e.KindOf()) then Err(HeaderMetadata)
      else if |e.Data()| > limits.FileBytes() then Err(FileLimit)
      else Ok(HeaderInfo(p, |e.Data()|, e.KindOf()))
  }

  lemma SmallNumbers()
    ensures Pow8(7) == 2097152 && Pow8(11) == 8589934592
  {
    assert Pow8(2) == 64 && Pow8(4) == 4096 && Pow8(6) == 262144 && Pow8(8) == 16777216;
    assert Pow8(10) == 1073741824;
  }

  lemma MetadataOf(h: Bytes, e: Entry, path: Bytes)
    requires Writable(e) && h == WrittenHeader(e)
    ensures CanonicalMetadata(h, path, e.KindOf()) <==> e.Mode() == ExpectedMode(path, e.KindOf())
  {
    var (prefix, name) := SplitUstarPath(e.path).value;
    SmallNumbers();
    NumberFields(h, prefix, name, e.Mode(), |e.Data()|, e.TypeFlag());
    FixedFields(h, prefix, name, e.Mode(), |e.Data()|, e.TypeFlag());
    ParseUndoesWrite(e.Mode(), 8);
    ParseUndoesWrite(0, 8);
    ParseUndoesWrite(0, 12);
  }

  lemma ReadTypedWritten(h: Bytes, e: Entry, limits: Limits)
    requires Writable(e) && h == WrittenHeader(e)
    ensures ReadTyped(h, |e.Data()|, limits)
         == Decide(ParseUstarPath(h, e.KindOf(), limits.PathBytes()), e, limits)
  {
    var (prefix, name) := SplitUstarPath(e.path).value;
    FixedFields(h, prefix, name, e.Mode(), |e.Data()|, e.TypeFlag());
    var kind := if h[156] == FILE_TYPE then Kind.File else Directory;
    assert kind == e.KindOf();
    assert !MetadataType(h[156]);
    assert kind == Directory ==> |e.Data()| == 0;
    var path := ParseUstarPath(h, kind, limits.PathBytes());
    if path.Ok? {
      MetadataOf(h, e, path.value);
    }
  }

  lemma ReadWrittenHeader(e: Entry, limits: Limits)
    requires Writable(e)
    ensures ReadHeader(WrittenHeader(e), limits)
         == Decide(ParseUstarPath(WrittenHeader(e), e.KindOf(), limits.PathBytes()), e, limits)
  {
    var h := WrittenHeader(e);
    var (prefix, name) := SplitUstarPath(e.path).value;
    ChecksumOfHeader(prefix, name, e.Mode(), |e.Data()|, e.TypeFlag());
    ChecksumFits(HeaderWith(prefix, name, e.Mode(), |e.Data()|, e.TypeFlag(), Repeat(SPACE, 8)));
    WrittenChecksumIsValid(h);
    FixedFields(h, prefix, name, e.Mode(), |e.Data()|, e.TypeFlag());
    NumberFields(h, prefix, name, e.Mode(), |e.Data()|, e.TypeFlag());
    SmallNumbers();
    ParseUndoesWrite(|e.Data()|, 12);
    ReadTypedWritten(h, e, limits);
  }

  /** A path that the two header fields can carry faithfully. */
  ghost predicate Faithful(path: Bytes) {
    NUL !in path && (path == [] || path[0] != SLASH)
  }

  lemma PathFields(h: Bytes, prefix: Bytes, name: Bytes, kind: Kind, maxPathBytes: nat)
    requires |h| == BLOCK && |name| <= 100 && |prefix| <= 155
    requires h[..100] == name + Repeat(NUL, 100 - |name|) && h[345..500] == prefix + Repeat(NUL, 155 - |prefix|)
    requires NUL !in prefix && NUL !in name
    ensures ParseUstarPath(h, kind, maxPathBytes) == ParsePath(Join(prefix, name), kind, maxPathBytes)
  {
    assert ParseNulPadded(h[..100]) == Ok(name) by {
      NulPaddedText(name, 100 - |name|);
    }
    assert ParseNulPadded(h[345..500]) == Ok(prefix) by {
      NulPaddedText(prefix, 155 - |prefix|);
    }
  }

  lemma WrittenPathReadsBack(e: Entry, maxPathBytes: nat)
    requires Writable(e) && Faithful(e.path)
    ensures ParseUstarPath(WrittenHeader(e), e.KindOf(), maxPathBytes) == ParsePath(e.path, e.KindOf(), maxPathBytes)
  {
    var h := WrittenHeader(e);
    var (prefix, name) := SplitUstarPath(e.path).value;
    TextFields(h, prefix, name, e.Mode(), |e.Data()|, e.TypeFlag());
    SplitRejoins(e.path);
    assert NUL !in prefix && NUL !in name;
    PathFields(h, prefix, name, e.KindOf(), maxPathBytes);
  }

  lemma CleanIsFaithful(path: Bytes, kind: Kind)
    requires CleanPath(path, kind)
    ensures Faithful(path)
  {
    var bare := if kind == Directory then path[..|path| - 1] else path;
    if NUL in path {
      var i :| 0 <= i < |path| && path[i] == NUL;
      assert bare[i] == NUL;
      Utf8.AsciiInChars(bare, i);
    }
  }

  ghost function Own(e: Entry): HeaderInfo {
    HeaderInfo(e.path, |e.Data()|, e.KindOf())
  }

  /** The inspector's demands on one entry, without any bytes: the path is clean, is not too long
      and keeps its spelling, the mode is the expected one, and the size is within the limit. */
  ghost predicate Passes(e: Entry, limits: Limits) {
    && ParsePath(e.path, e.KindOf(), limits.PathBytes()) == Ok(e.path)
    && e.Mode() == ExpectedMode(e.path, e.KindOf())
    && |e.Data()| <= limits.FileBytes()
  }

  /** A written header reads back as its own entry exactly when the entry passes. */
  lemma ReadsBack(e: Entry, limits: Limits)
    requires Writable(e)
    ensures ReadHeader(WrittenHeader(e), limits) == Ok(Own(e)) <==> Passes(e, limits)
  {
    ReadWrittenHeader(e, limits);
    var h := WrittenHeader(e);
    if Passes(e, limits) {
      ParsedPathIsClean(e.path, e.KindOf(), limits.PathBytes());
      CleanIsFaithful(e.path, e.KindOf());
      WrittenPathReadsBack(e, limits.PathBytes());
    }
    if ReadHeader(h, limits) == Ok(Own(e)) {
      ReadHeaderIsClean(h, limits);
      CleanIsFaithful(e.path, e.KindOf());
      WrittenPathReadsBack(e, limits.PathBytes());
    }
  }

  // ---------------------------------------------------------------- whole archives

  lemma WritableExactly(e: Entry)
    ensures EntryBytes(e).Ok? <==> Writable(e)
  {
  }

  /** The entries the inspector should report, with the data offsets at which the writer put them. */
  ghost function Expected(entries: seq<Entry>, base: nat): (es: seq<InspectedEntry>)
    ensures |es| == |entries|
    ensures forall i :: 0 <= i < |es| ==>
      es[i].path == entries[i].path && es[i].size == |entries[i].Data()| && es[i].kind == entries[i].KindOf()
  {
    if entries == [] then []
    else
      var e := entries[0];
      [InspectedEntry(e.path, |e.Data()|, e.KindOf(), base + BLOCK)]
      + Expected(entries[1..], base + BLOCK + RoundUp(|e.Data()|))
  }

  ghost function Chunks(entries: seq<Entry>): (chunks: seq<Bytes>)
    requires Body(entries).Ok?
    ensures |chunks| == |entries|
  {
    if entries == [] then [] else [EntryBytes(entries[0]).value] + Chunks(entries[1..])
  }

  lemma {:induction false} ChunkAt(entries: seq<Entry>, i: nat)
    requires Body(entries).Ok? && i < |entries|
    ensures EntryBytes(entries[i]) == Ok(Chunks(entries)[i])
    decreases |entries|
  {
    if i > 0 {
      ChunkAt(entries[1..], i - 1);
      assert entries[i] == entries[1..][i - 1];
    }
  }

  lemma EntryLayout(e: Entry)
    requires Writable(e)
    ensures var chunk, size := EntryBytes(e).value, |e.Data()|;
            && |chunk| == BLOCK + RoundUp(size)
            && chunk[..BLOCK] == WrittenHeader(e)
            && chunk[BLOCK..BLOCK + size] == e.Data()
            && AllZero(chunk[BLOCK + size..])
  {
    PaddingRoundsUp(|e.Data()|);
  }

  lemma HeaderIsNotZero(e: Entry)
    requires Writable(e)
    ensures !AllZero(WrittenHeader(e))
  {
    var (prefix, name) := SplitUstarPath(e.path).value;
    var h := WrittenHeader(e);
    FixedFields(h, prefix, name, e.Mode(), |e.Data()|, e.TypeFlag());
    assert h[156] == e.TypeFlag() != 0;
  }

  lemma ChunkReadsAs(e: Entry, x: InspectedEntry, limits: Limits, fold: Bytes -> Bytes)
    requires Writable(e) && HeaderInfo(x.path, x.size, x.kind) == Own(e)
    ensures ReadsAs(EntryBytes(e).value, ChecksFor(limits, fold), x) <==> Passes(e, limits)
  {
    EntryLayout(e);
    HeaderIsNotZero(e);
    ReadsBack(e, limits);
  }

  ghost predicate AllPass(entries: seq<Entry>, limits: Limits) {
    forall e :: e in entries ==> Passes(e, limits)
  }

  /** A written archive is its entries' chunks glued together. */
  lemma {:induction false} BodyIsGlued(entries: seq<Entry>)
    requires Body(entries).Ok?
    ensures Body(entries).value + Repeat(NUL, END_BLOCKS) == Glue(Chunks(entries))
    decreases |entries|
  {
    if entries != [] {
      var chunk, rest := EntryBytes(entries[0]).value, entries[1..];
      BodyIsGlued(rest);
      assert Chunks(entries)[1..] == Chunks(rest);
      assert Body(entries).value == chunk + Body(rest).value;
      ConcatAssociates(chunk, Body(rest).value, Repeat(NUL, END_BLOCKS));
    }
  }

  lemma {:induction false} LengthsFit(chunks: seq<Bytes>, entries: seq<Entry>, base: nat)
    requires |chunks| == |entries|
    requires forall i :: 0 <= i < |entries| ==> |chunks[i]| == BLOCK + RoundUp(|entries[i].Data()|)
    ensures Fits(chunks, Expected(entries, base), base)
    decreases |entries|
  {
    if entries != [] {
      var rest := Expected(entries[1..], base + |chunks[0]|);
      LengthsFit(chunks[1..], entries[1..], base + |chunks[0]|);
      var e := entries[0];
      FirstFits(chunks, InspectedEntry(e.path, |e.Data()|, e.KindOf(), base + BLOCK), rest, base);
    }
  }

  lemma FirstFits(chunks: seq<Bytes>, first: InspectedEntry, rest: seq<InspectedEntry>, base: nat)
    requires chunks != [] && |chunks[0]| == Footprint(first) && first.dataOffset == base + BLOCK
    requires Fits(chunks[1..], rest, base + |chunks[0]|)
    ensures Fits(chunks, [first] + rest, base)
  {
    assert ([first] + rest)[1..] == rest;
  }

  lemma ChunksFit(entries: seq<Entry>, base: nat)
    requires Body(entries).Ok?
    ensures Fits(Chunks(entries), Expected(entries, base), base)
  {
    var chunks := Chunks(entries);
    forall i | 0 <= i < |entries|
      ensures |chunks[i]| == BLOCK + RoundUp(|entries[i].Data()|)
    {
      ChunkAt(entries, i);
      EntryLayout(entries[i]);
    }
    LengthsFit(chunks, entries, base);
  }

  lemma StreamTiles(entries: seq<Entry>, limits: Limits, fold: Bytes -> Bytes)
    requires ArchiveOf(entries).Ok?
    ensures Tiles(ArchiveOf(entries).value, 0, ChecksFor(limits, fold), Expected(entries, 0))
            <==> AllPass(entries, limits)
  {
    var chunks, es, checks := Chunks(entries), Expected(entries, 0), ChecksFor(limits, fold);
    BodyIsGlued(entries);
    ChunksFit(entries, 0);
    GlueTiles(chunks, es, 0, checks);
    forall i | 0 <= i < |entries|
      ensures ReadsAs(chunks[i], checks, es[i]) <==> Passes(entries[i], limits)
    {
      ChunkAt(entries, i);
      WritableExactly(entries[i]);
      ChunkReadsAs(entries[i], es[i], limits, fold);
    }
  }

  ghost predicate DistinctFoldedEntries(entries: seq<Entry>, fold: Bytes -> Bytes) {
    forall i, j :: 0 <= i < j < |entries| ==> fold(entries[i].path) != fold(entries[j].path)
  }

  /** Inspecting a written archive returns exactly its entries, in order and at the offsets where
      they were written, if and only if there are not too many, each passes, and no two paths
      collide under case folding. */
  lemma RoundTripExact(entries: seq<Entry>, limits: Limits, fold: Bytes -> Bytes)
    requires SortedEntries(entries) && ArchiveOf(entries).Ok? && |ArchiveOf(entries).value| <= U64_MAX
    ensures InspectFrom(ArchiveOf(entries).value, 0, ChecksFor(limits, fold), []) == Ok(Expected(entries, 0))
       <==> |entries| <= limits.Entries() && AllPass(entries, limits) && DistinctFoldedEntries(entries, fold)
  {
    var checks, es := ChecksFor(limits, fold), Expected(entries, 0);
    InspectExact(ArchiveOf(entries).value, checks, es);
    StreamTiles(entries, limits, fold);
    assert SortedPaths(es);
    assert DistinctFolded(es, fold) <==> DistinctFoldedEntries(entries, fold) by {
      forall i | 0 <= i < |es|
        ensures es[i].path == entries[i].path
      {
      }
    }
  }

  /** The recorded offset and size of entry `i` cut exactly its data out of the archive. */
  lemma DataIsWhereRecorded(entries: seq<Entry>, i: nat)
    requires ArchiveOf(entries).Ok? && i < |entries|
    ensures var e, archive := Expected(entries, 0)[i], ArchiveOf(entries).value;
            && e.dataOffset + e.size <= |archive|
            && archive[e.dataOffset..e.dataOffset + e.size] == entries[i].Data()
  {
    BodyIsGlued(entries);
    ChunksFit(entries, 0);
    ChunkAt(entries, i);
    GlueData(Chunks(entries), Expected(entries, 0), 0);
    assert IsCutOut(Chunks(entries), Expected(entries, 0)[i], 0, i);
    ChunkData(entries[i], Chunks(entries)[i], |entries[i].Data()|);
  }

  lemma ChunkData(e: Entry, chunk: Bytes, size: nat)
    requires EntryBytes(e) == Ok(chunk) && size == |e.Data()|
    ensures BLOCK + size <= |chunk| && chunk[BLOCK..BLOCK + size] == e.Data()
  {
    EntryLayout(e);
  }

  // ---------------------------------------------------------------- file maps

  lemma PartsPrefix(path: Bytes, i: nat)
    requires i < |path| && path[i] == SLASH
    ensures forall part :: part in Split(path[..i], SLASH) ==> part in Split(path, SLASH)
  {
    assert path == path[..i] + [SLASH] + path[i + 1..];
    SplitConcat(path[..i], SLASH, path[i + 1..]);
  }

  lemma CharsPrefix(path: Bytes, i: nat)
    requires Utf8.Valid(path) && i < |path| && path[i] == SLASH
    ensures Utf8.Valid(path[..i])
    ensures forall c :: c in Utf8.Chars(path[..i]) ==> c in Utf8.Chars(path)
  {
    Utf8.AsciiBoundary(path, i);
    Utf8.CharsAtBoundary(path, i);
  }

  lemma SafePrefix(path: Bytes, i: nat)
    requires Utf8.Valid(path) && SafeRelative(path) && i < |path| && path[i] == SLASH
    ensures Utf8.Valid(path[..i]) && SafeRelative(path[..i])
  {
    CharsPrefix(path, i);
    PartsPrefix(path, i);
    assert forall b :: b in path[..i] ==> b in path;
  }

  /** Every ancestor of a file path that passes is a directory path that passes. */
  lemma AncestorPasses(path: Bytes, d: Bytes, maxPathBytes: nat)
    requires ParsePath(path, Kind.File, maxPathBytes) == Ok(path) && IsAncestor(d, path)
    ensures ParsePath(d, Directory, maxPathBytes) == Ok(d)
  {
    var i :| 0 <= i < |path| && path[i] == SLASH && d == path[..i + 1];
    SafePrefix(path, i);
    assert d == path[..i] + [SLASH];
    assert d[..|d| - 1] == path[..i];
    Utf8.AsciiChars([SLASH]);
    Utf8.ValidConcat(path[..i], [SLASH]);
  }

  ghost predicate FilesPass(files: seq<(Bytes, ArchiveFile)>, limits: Limits) {
    forall f :: f in files ==> Passes(Entry(f.0, Some(f.1)), limits)
  }

  lemma FilesPassMeansAllPass(files: seq<(Bytes, ArchiveFile)>, entries: seq<Entry>, limits: Limits)
    requires EntriesOf(files, entries)
    ensures FilesPass(files, limits) <==> AllPass(entries, limits)
  {
    if FilesPass(files, limits) {
      forall e | e in entries
        ensures Passes(e, limits)
      {
        if e.file.Some? {
          assert e == Entry(e.path, Some(e.file.value));
        } else {
          var i :| 0 <= i < |files| && e.path in AncestorDirectories(files[i].0);
          var f := files[i];
          assert f in files;
          ParsedPathIsClean(f.0, Kind.File, limits.PathBytes());
          AncestorsExact(f.0, e.path);
          AncestorPasses(f.0, e.path, limits.PathBytes());
        }
      }
    }
    if AllPass(entries, limits) {
      forall f | f in files
        ensures Passes(Entry(f.0, Some(f.1)), limits)
      {
        assert Entry(f.0, Some(f.1)) in entries;
      }
    }
  }

  // ---------------------------------------------------------------- when a file map can be written

  /** A slash with at most 155 bytes before it and 1 to 100 bytes after it. */
  ghost predicate CutsAt(path: Bytes, i: int) {
    0 <= i < |path| && path[i] == 47 && i <= 155 && 1 <= |path| - i - 1 <= 100
  }

  /** The name field holds the path, or the path has a slash at which it can be split. */
  ghost predicate NameFits(path: Bytes) {
    |path| <= 100 || exists i :: CutsAt(path, i)
  }

  ghost predicate FileFits(f: (Bytes, ArchiveFile)) {
    NameFits(f.0) && f.1.mode < Pow8(7) && |f.1.bytes| < Pow8(11)
  }

  /** Every file fits, and so does the name of every directory that the files imply. */
  ghost predicate MapFits(files: seq<(Bytes, ArchiveFile)>) {
    && (forall f :: f in files ==> FileFits(f))
    && (forall d :: IsDirectoryOf(files, d) && !IsFilePath(files, d) ==> NameFits(d))
  }

  lemma NameFitsExactly(path: Bytes)
    ensures NameFits(path) <==> SplitUstarPath(path).Ok?
  {
    assert forall i :: CutsAt(path, i) <==> SplitsAt(path, i);
  }

  lemma {:induction false} BodyOkExactly(entries: seq<Entry>)
    ensures Body(entries).Ok? <==> forall e :: e in entries ==> Writable(e)
  {
    if entries != [] {
      BodyOkExactly(entries[1..]);
      assert entries == [entries[0]] + entries[1..];
      WritableExactly(entries[0]);
    }
  }

  lemma DirectoryNumbersFit()
    ensures MODE_EXECUTABLE < Pow8(7) && 0 < Pow8(11)
  {
  }

  /** A file map can be written exactly when its files and the directories they imply fit. */
  lemma MapIsWritable(files: seq<(Bytes, ArchiveFile)>, entries: seq<Entry>)
    requires EntriesOf(files, entries)
    ensures ArchiveOf(entries).Ok? <==> MapFits(files)
  {
    BodyOkExactly(entries);
    DirectoryNumbersFit();
    forall e | e in entries
      ensures Writable(e) <==> NameFits(e.path) && NumbersFit(e)
    {
      NameFitsExactly(e.path);
    }
    if MapFits(files) {
      forall e | e in entries
        ensures Writable(e)
      {
        if e.file.Some? {
          assert FileFits((e.path, e.file.value));
        }
      }
    }
    if forall e :: e in entries ==> Writable(e) {
      forall f | f in files
        ensures FileFits(f)
      {
        assert Entry(f.0, Some(f.1)) in entries;
      }
      forall d | IsDirectoryOf(files, d) && !IsFilePath(files, d)
        ensures NameFits(d)
      {
        assert Entry(d, None) in entries;
      }
    }
  }

  /** Writing a file map and inspecting the archive gives exactly the files and all their ancestor
      directories, in path order, if and only if the map fits the format, every file passes, the entries
      are not too many and no two paths collide under case folding. */
  lemma FileMapRoundTrip(files: seq<(Bytes, ArchiveFile)>, entries: seq<Entry>, limits: Limits, fold: Bytes -> Bytes)
    requires SortedFiles(files) && EntriesOf(files, entries)
    requires ArchiveOf(entries).Ok? ==> |ArchiveOf(entries).value| <= U64_MAX
    ensures ArchiveOf(entries).Ok?
            && InspectFrom(ArchiveOf(entries).value, 0, ChecksFor(limits, fold), []) == Ok(Expected(entries, 0))
       <==> && MapFits(files) && FilesPass(files, limits)
             && |entries| <= limits.Entries() && DistinctFoldedEntries(entries, fold)
    ensures FilesPass(files, limits) ==>
      forall e :: e in entries && e.file.None? ==> exists f :: f in files && IsAncestor(e.path, f.0)
  {
    MapIsWritable(files, entries);
    FilesPassMeansAllPass(files, entries, limits);
    if ArchiveOf(entries).Ok? {
      RoundTripExact(entries, limits, fold);
    }
    if FilesPass(files, limits) {
      DirectoriesAreAncestors(files, entries, limits);
    }
  }

  lemma DirectoriesAreAncestors(files: seq<(Bytes, ArchiveFile)>, entries: seq<Entry>, limits: Limits)
    requires EntriesOf(files, entries) && FilesPass(files, limits)
    ensures forall e :: e in entries && e.file.None? ==> exists f :: f in files && IsAncestor(e.path, f.0)
  {
    forall e | e in entries && e.file.None?
      ensures exists f :: f in files && IsAncestor(e.path, f.0)
    {
      var i :| 0 <= i < |files| && e.path in AncestorDirectories(files[i].0);
      assert files[i] in files;
      ParsedPathIsClean(files[i].0, Kind.File, limits.PathBytes());
      AncestorsExact(files[i].0, e.path);
    }
  }

  /** The files alone do not decide: the path of a file can fit while the directory above it does not,
      here with 150 bytes, a slash and one more byte. The map of this one file cannot be written. */
  lemma DirectoryMayNotFit(file: ArchiveFile)
    requires file.mode < Pow8(7) && |file.bytes| < Pow8(11)
    ensures var f := (Repeat(97, 150) + [SLASH, 98], file); FileFits(f) && !MapFits([f])
    ensures forall entries :: EntriesOf([(Repeat(97, 150) + [SLASH, 98], file)], entries) ==> ArchiveOf(entries).Err?
  {
    var path := Repeat(97, 150) + [SLASH, 98];
    var parent := path[..151];
    var files := [(path, file)];
    assert CutsAt(path, 150);
    assert IsAncestor(parent, path);
    AncestorsExact(path, parent);
    assert files[0].0 == path && IsDirectoryOf(files, parent);
    assert !IsFilePath(files, parent);
    assert forall i :: !CutsAt(parent, i);
    forall entries | EntriesOf(files, entries)
      ensures ArchiveOf(entries).Err?
    {
      MapIsWritable(files, entries);
    }
  }
}
