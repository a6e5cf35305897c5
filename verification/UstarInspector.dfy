/** The walk over an archive: `inspect_ustar` in `collect-diff-context-cli/src/artifacts/pack.rs`.

    The walk is written over the checks it makes, so that what it guarantees about layout and order
    does not depend on what a single header must look like. */
module UstarInspector {
  import opened ByteStrings
  import opened UstarFormat
  import opened UstarHeader

  datatype InspectedEntry = InspectedEntry(path: Bytes, size: nat, kind: Kind, dataOffset: nat)

  /** The entry limit, the check of one header block, and `to_lowercase`, which decides whether two
      paths collide. */
  datatype Checks = Checks(maxEntries: nat, read: Bytes -> Result<HeaderInfo, InspectError>, fold: Bytes -> Bytes)

  /** The checks that the inspector makes under the given limits. */
  function ChecksFor(limits: Limits, fold: Bytes -> Bytes): Checks {
    Checks(limits.Entries(),
           (header: Bytes) => if |header| == BLOCK then ReadHeader(header, limits) else Err(HeaderFormat),
           fold)
  }

  function Paths(entries: seq<InspectedEntry>): set<Bytes> {
    set e | e in entries :: e.path
  }

  function FoldedPaths(entries: seq<InspectedEntry>, fold: Bytes -> Bytes): set<Bytes> {
    set e | e in entries :: fold(e.path)
  }

  /** The checks against the entries before this one. */
  function CheckOrder(entries: seq<InspectedEntry>, path: Bytes, fold: Bytes -> Bytes): Result<(), InspectError> {
    if entries != [] && Less(path, entries[|entries| - 1].path) then Err(PathOrder)
    else if path in Paths(entries) then Err(DuplicatePath)
    else if fold(path) in FoldedPaths(entries, fold) then Err(CaseCollision)
    else Ok(())
  }

  /** Where the data of an entry ends, padding included, when `body` is the archive after the
      entry's header and starts at `offset`. */
  function PaddedData(body: Bytes, offset: nat, size: nat): (r: Result<nat, InspectError>)
    ensures r.Ok? ==> size <= r.value <= |body|
  {
    var padded := RoundUp(size);
    if size + (BLOCK - 1) > U64_MAX || offset + padded > U64_MAX then Err(ExpandedLimit)
    else if padded > |body| then Err(Truncated)
    else if !AllZero(body[size..padded]) then Err(HeaderMetadata)
    else Ok(padded)
  }

  predicate EndsArchive(body: Bytes) {
    |body| == BLOCK && AllZero(body)
  }

  /** One round of the inspection, when `rest` of the archive, at offset `base`, is unread: an
      error, the end of the archive, or the next entry and the number of bytes it takes. */
  function NextEntry(rest: Bytes, base: nat, checks: Checks, done: seq<InspectedEntry>)
    : (r: Result<Option<(InspectedEntry, nat)>, InspectError>)
    ensures r.Ok? && r.value.Some? ==> r.value.value.1 == BLOCK + RoundUp(r.value.value.0.size) <= |rest|
  {
    if |rest| < BLOCK then Err(EndBlocks)
    else
      var body, offset := rest[BLOCK..], base + BLOCK;
      if offset > U64_MAX then Err(ExpandedLimit)
      else if AllZero(rest[..BLOCK]) then
        if EndsArchive(body) then Ok(None) else Err(EndBlocks)
      else if |done| >= checks.maxEntries then Err(EntryLimit)
      else
        match checks.read(rest[..BLOCK])
        case Err(error) => Err(error)
        case Ok(info) =>
          match CheckOrder(done, info.path, checks.fold)
          case Err(error) => Err(error)
          case Ok(_) =>
            match PaddedData(body, offset, info.size)
            case Err(error) => Err(error)
            case Ok(padded) =>
              Ok(Some((InspectedEntry(info.path, info.size, info.kind, offset), BLOCK + padded)))
  }

  ghost predicate HasPath(entries: seq<InspectedEntry>, path: Bytes) {
    exists e :: e in entries && e.path == path
  }

  ghost predicate HasFolded(entries: seq<InspectedEntry>, path: Bytes, fold: Bytes -> Bytes) {
    exists e :: e in entries && fold(e.path) == fold(path)
  }

  /** A path that sorts before the previous one is out of order; otherwise one that was there before is a
      duplicate; otherwise one that was there but for its case is a collision. */
  lemma OrderErrors(entries: seq<InspectedEntry>, path: Bytes, fold: Bytes -> Bytes)
    ensures var early := entries != [] && Less(path, entries[|entries| - 1].path);
            && (CheckOrder(entries, path, fold) == Err(PathOrder) <==> early)
            && (CheckOrder(entries, path, fold) == Err(DuplicatePath) <==> !early && HasPath(entries, path))
            && (CheckOrder(entries, path, fold) == Err(CaseCollision) <==>
                  !early && !HasPath(entries, path) && HasFolded(entries, path, fold))
  {
  }

  /** The whole inspection of `rest`, after the entries `done`. */
  function InspectFrom(rest: Bytes, base: nat, checks: Checks,
                       done: seq<InspectedEntry>): Result<seq<InspectedEntry>, InspectError>
    decreases |rest|
  {
    match NextEntry(rest, base, checks, done)
    case Err(error) => Err(error)
    case Ok(None) => Ok(done)
    case Ok(Some((entry, length))) =>
      InspectFrom(rest[length..], base + length, checks, done + [entry])
  }

  lemma PathsAppend(entries: seq<InspectedEntry>, e: InspectedEntry, fold: Bytes -> Bytes)
    ensures Paths(entries + [e]) == Paths(entries) + {e.path}
    ensures FoldedPaths(entries + [e], fold) == FoldedPaths(entries, fold) + {fold(e.path)}
  {
    var all := entries + [e];
    assert all[|entries|] == e;
    forall x | x in entries
      ensures x in all
    {
    }
  }

  /** The file the inspector reads through, with its cursor. */
  class ArchiveReader {
    const content: Bytes
    var position: nat

    constructor (content: Bytes)
      ensures this.content == content && position == 0
    {
      this.content := content;
      position := 0;
    }

    method Seek(to: nat)
      modifies this
      ensures position == to
    {
      position := to;
    }

    method ReadExact(count: nat) returns (ok: bool, bytes: Bytes)
      modifies this
      ensures ok <==> old(position) + count <= |content|
      ensures ok ==> bytes == content[old(position)..old(position) + count] && position == old(position) + count
    {
      if position + count <= |content| {
        bytes := content[position..position + count];
        position := position + count;
        ok := true;
      } else {
        bytes := [];
        position := |content|;
        ok := false;
      }
    }
  }

  /** Reads the second end block, which must be the last thing in the archive. */
  method ReadEndBlock(file: ArchiveReader, offset: nat) returns (ok: bool)
    requires file.position == offset <= |file.content| <= U64_MAX
    modifies file
    ensures ok <==> EndsArchive(file.content[offset..])
  {
    var read, second := file.ReadExact(BLOCK);
    // The unchecked addition is reached only after the second block was read.
    assert read ==> offset + BLOCK <= U64_MAX;
    ok := read && AllZero(second) && offset + BLOCK == |file.content|;
    assert read && offset + BLOCK == |file.content| ==> second == file.content[offset..];
  }

  /** Checks that an entry's data and zero padding are inside the archive and moves past them. */
  method SkipData(file: ArchiveReader, dataOffset: nat, size: nat) returns (r: Result<nat, InspectError>)
    requires dataOffset <= |file.content| <= U64_MAX
    modifies file
    ensures r == PaddedData(file.content[dataOffset..], dataOffset, size)
    ensures r.Ok? ==> file.position == dataOffset + r.value
  {
    ghost var body := file.content[dataOffset..];
    var paddedSize := RoundUp(size);
    if size + (BLOCK - 1) > U64_MAX || dataOffset + paddedSize > U64_MAX {
      return Err(ExpandedLimit);
    }
    var nextOffset := dataOffset + paddedSize;
    if nextOffset > |file.content| {
      return Err(Truncated);
    }
    if paddedSize > size {
      // The unchecked addition of data offset and size stays below the archive size.
      assert dataOffset + size <= U64_MAX;
      file.Seek(dataOffset + size);
      var read, padding := file.ReadExact(paddedSize - size);
      assert read && padding == body[size..paddedSize];
      if !AllZero(padding) {
        return Err(HeaderMetadata);
      }
    }
    file.Seek(nextOffset);
    r := Ok(paddedSize);
  }

  /** The path order, duplicate and case-collision checks against the running state. */
  method AdmitPath(ghost entries: seq<InspectedEntry>, previousPath: Option<Bytes>, observedPaths: set<Bytes>,
                   foldedPaths: set<Bytes>, path: Bytes, fold: Bytes -> Bytes) returns (r: Result<(), InspectError>)
    requires observedPaths == Paths(entries) && foldedPaths == FoldedPaths(entries, fold)
    requires previousPath == if entries == [] then None else Some(entries[|entries| - 1].path)
    ensures r == CheckOrder(entries, path, fold)
  {
    if previousPath.Some? && Less(path, previousPath.value) {
      return Err(PathOrder);
    }
    if path in observedPaths {
      return Err(DuplicatePath);
    }
    if fold(path) in foldedPaths {
      return Err(CaseCollision);
    }
    r := Ok(());
  }

  /** Reads one entry. */
  method ReadEntry(file: ArchiveReader, checks: Checks, entries: seq<InspectedEntry>,
                   previousPath: Option<Bytes>, observedPaths: set<Bytes>, foldedPaths: set<Bytes>)
    returns (r: Result<Option<(InspectedEntry, nat)>, InspectError>)
    requires file.position <= |file.content| <= U64_MAX
    requires observedPaths == Paths(entries) && foldedPaths == FoldedPaths(entries, checks.fold)
    requires previousPath == if entries == [] then None else Some(entries[|entries| - 1].path)
    modifies file
    ensures r == NextEntry(file.content[old(file.position)..], old(file.position), checks, entries)
    ensures r.Ok? && r.value.Some? ==> file.position == old(file.position) + r.value.value.1
  {
    var offset := file.position;
    ghost var rest := file.content[offset..];
    var read, header := file.ReadExact(BLOCK);
    if !read {
      return Err(EndBlocks);
    }
    offset := offset + BLOCK;
    assert header == rest[..BLOCK];
    assert file.content[offset..] == rest[BLOCK..];
    if AllZero(header) {
      var ended := ReadEndBlock(file, offset);
      return if ended then Ok(None) else Err(EndBlocks);
    }
    if |entries| >= checks.maxEntries {
      return Err(EntryLimit);
    }
    var info := checks.read(header);
    if info.Err? {
      return Err(info.error);
    }
    var path := info.value.path;
    var admitted := AdmitPath(entries, previousPath, observedPaths, foldedPaths, path, checks.fold);
    if admitted.Err? {
      return Err(admitted.error);
    }
    var skipped := SkipData(file, offset, info.value.size);
    if skipped.Err? {
      return Err(skipped.error);
    }
    r := Ok(Some((InspectedEntry(path, info.value.size, info.value.kind, offset), BLOCK + skipped.value)));
  }

  lemma InspectOn(whole: Bytes, position: nat, checks: Checks, done: seq<InspectedEntry>)
    requires position <= |whole|
    ensures var next := NextEntry(whole[position..], position, checks, done);
            InspectFrom(whole[position..], position, checks, done) ==
            if next.Err? then Err(next.error)
            else if next.value.None? then Ok(done)
            else
              var (entry, length) := next.value.value;
              InspectFrom(whole[position + length..], position + length, checks, done + [entry])
  {
    var next := NextEntry(whole[position..], position, checks, done);
    if next.Ok? && next.value.Some? {
      assert whole[position..][next.value.value.1..] == whole[position + next.value.value.1..];
    }
  }

  method InspectUstar(file: ArchiveReader, checks: Checks)
    returns (r: Result<seq<InspectedEntry>, InspectError>)
    requires |file.content| <= U64_MAX
    modifies file
    ensures r == InspectFrom(file.content, 0, checks, [])
  {
    file.Seek(0);
    var entries: seq<InspectedEntry> := [];
    var observedPaths: set<Bytes> := {};
    var foldedPaths: set<Bytes> := {};
    var previousPath: Option<Bytes> := None;
    ghost var whole := file.content;
    assert whole[0..] == whole;
    ghost var expected := InspectFrom(whole, 0, checks, []);
    while true
      invariant file.position <= |whole|
      invariant observedPaths == Paths(entries)
      invariant foldedPaths == FoldedPaths(entries, checks.fold)
      invariant previousPath == if entries == [] then None else Some(entries[|entries| - 1].path)
      invariant expected == InspectFrom(whole[file.position..], file.position, checks, entries)
      decreases |whole| - file.position
    {
      InspectOn(whole, file.position, checks, entries);
      var next := ReadEntry(file, checks, entries, previousPath, observedPaths, foldedPaths);
      match next
      case Err(error) => return Err(error);
      case Ok(None) => return Ok(entries);
      case Ok(Some((entry, length))) =>
        observedPaths := observedPaths + {entry.path};
        foldedPaths := foldedPaths + {checks.fold(entry.path)};
        previousPath := Some(entry.path);
        PathsAppend(entries, entry, checks.fold);
        entries := entries + [entry];
    }
  }
}
