/** What it means for the inspector to accept an archive. */
module UstarAccepted {
  import opened ByteStrings
  import opened UstarFormat
  import opened UstarHeader
  import opened UstarInspector
  import Utf8

  function Footprint(e: InspectedEntry): nat {
    BLOCK + RoundUp(e.size)
  }

  /** `rest`, at offset `base`, starts with one header block that reads as `e`, followed by the
      data of `e`, rounded up to whole blocks with zeros. */
  ghost predicate StartsWith(rest: Bytes, base: nat, checks: Checks, e: InspectedEntry) {
    && Footprint(e) <= |rest|
    && !AllZero(rest[..BLOCK])
    && checks.read(rest[..BLOCK]) == Ok(HeaderInfo(e.path, e.size, e.kind))
    && e.dataOffset == base + BLOCK
    && AllZero(rest[BLOCK + e.size..Footprint(e)])
  }

  /** `rest`, at offset `base`, is tiled by the entries `es` and two zero blocks, with nothing left
      over. */
  ghost predicate Tiles(rest: Bytes, base: nat, checks: Checks, es: seq<InspectedEntry>)
    decreases |es|
  {
    if es == [] then |rest| == 2 * BLOCK && AllZero(rest)
    else
      && StartsWith(rest, base, checks, es[0])
      && Tiles(rest[Footprint(es[0])..], base + Footprint(es[0]), checks, es[1..])
  }

  ghost predicate SortedPaths(es: seq<InspectedEntry>) {
    forall i, j :: 0 <= i < j < |es| ==> Less(es[i].path, es[j].path)
  }

  ghost predicate DistinctFolded(es: seq<InspectedEntry>, fold: Bytes -> Bytes) {
    forall i, j :: 0 <= i < j < |es| ==> fold(es[i].path) != fold(es[j].path)
  }

  ghost predicate Admissible(es: seq<InspectedEntry>, checks: Checks) {
    |es| <= checks.maxEntries && SortedPaths(es) && DistinctFolded(es, checks.fold)
  }

  // ---------------------------------------------------------------- accepted exactly when tiled

  /** The incremental order checks amount to global order and distinctness. */
  lemma CheckOrderExact(done: seq<InspectedEntry>, e: InspectedEntry, checks: Checks)
    requires Admissible(done, checks)
    ensures |done| < checks.maxEntries && CheckOrder(done, e.path, checks.fold) == Ok(())
       <==> Admissible(done + [e], checks)
  {
    var all := done + [e];
    assert forall i :: 0 <= i < |done| ==> all[i] == done[i];
    assert all[|done|] == e;
    if |done| < checks.maxEntries && CheckOrder(done, e.path, checks.fold) == Ok(()) {
      forall i | 0 <= i < |done|
        ensures Less(done[i].path, e.path) && checks.fold(done[i].path) != checks.fold(e.path)
      {
        assert done[i] in done && done[i].path in Paths(done);
        assert checks.fold(done[i].path) in FoldedPaths(done, checks.fold);
        var last := done[|done| - 1];
        assert last in done && last.path in Paths(done);
        LessTotal(last.path, e.path);
        if i < |done| - 1 {
          LessTransitive(done[i].path, last.path, e.path);
        }
      }
    }
    if Admissible(all, checks) {
      if done != [] && Less(e.path, done[|done| - 1].path) {
        LessTransitive(e.path, done[|done| - 1].path, e.path);
      }
      LessIrreflexive(e.path);
    }
  }

  lemma FirstRound(rest: Bytes, base: nat, checks: Checks, done: seq<InspectedEntry>, e: InspectedEntry)
    requires Admissible(done, checks) && base + |rest| <= U64_MAX
    ensures NextEntry(rest, base, checks, done) == Ok(Some((e, Footprint(e))))
       <==> StartsWith(rest, base, checks, e) && Admissible(done + [e], checks)
  {
    CheckOrderExact(done, e, checks);
    if Footprint(e) <= |rest| {
      assert rest[BLOCK..][e.size..RoundUp(e.size)] == rest[BLOCK + e.size..Footprint(e)];
    }
  }

  lemma LastRound(rest: Bytes, base: nat, checks: Checks, done: seq<InspectedEntry>)
    requires base + |rest| <= U64_MAX
    ensures NextEntry(rest, base, checks, done) == Ok(None) <==> |rest| == 2 * BLOCK && AllZero(rest)
  {
    if |rest| >= BLOCK {
      assert rest == rest[..BLOCK] + rest[BLOCK..];
      assert forall i :: BLOCK <= i < |rest| ==> rest[i] == rest[BLOCK..][i - BLOCK];
    }
  }

  /** The inspection of `rest` after `done` accepts with the further entries `es`. */
  ghost predicate Accepts(rest: Bytes, base: nat, checks: Checks, done: seq<InspectedEntry>, es: seq<InspectedEntry>) {
    InspectFrom(rest, base, checks, done) == Ok(done + es)
  }

  ghost predicate Tiled(rest: Bytes, base: nat, checks: Checks, done: seq<InspectedEntry>, es: seq<InspectedEntry>) {
    Tiles(rest, base, checks, es) && Admissible(done + es, checks)
  }

  lemma AcceptsFirst(rest: Bytes, base: nat, checks: Checks, done: seq<InspectedEntry>, e: InspectedEntry,
                     es: seq<InspectedEntry>)
    requires NextEntry(rest, base, checks, done) == Ok(Some((e, Footprint(e))))
    ensures Accepts(rest, base, checks, done, [e] + es)
       <==> Accepts(rest[Footprint(e)..], base + Footprint(e), checks, done + [e], es)
  {
    assert done + ([e] + es) == (done + [e]) + es;
  }

  lemma TiledFirst(rest: Bytes, base: nat, checks: Checks, done: seq<InspectedEntry>, e: InspectedEntry,
                   es: seq<InspectedEntry>)
    requires StartsWith(rest, base, checks, e)
    ensures Tiled(rest, base, checks, done, [e] + es)
       <==> Tiled(rest[Footprint(e)..], base + Footprint(e), checks, done + [e], es)
  {
    assert done + ([e] + es) == (done + [e]) + es;
    assert ([e] + es)[1..] == es;
  }

  /** Without entries, both sides mean the two end blocks. */
  lemma NothingMore(rest: Bytes, base: nat, checks: Checks, done: seq<InspectedEntry>)
    requires Admissible(done, checks) && base + |rest| <= U64_MAX
    requires NextEntry(rest, base, checks, done) == Ok(None) || Tiles(rest, base, checks, [])
    ensures Accepts(rest, base, checks, done, []) && Tiled(rest, base, checks, done, [])
  {
    LastRound(rest, base, checks, done);
    assert done + [] == done;
  }

  lemma {:induction false} AcceptedIsTiled(rest: Bytes, base: nat, checks: Checks, done: seq<InspectedEntry>)
    returns (es: seq<InspectedEntry>)
    requires Admissible(done, checks) && base + |rest| <= U64_MAX
    requires InspectFrom(rest, base, checks, done).Ok?
    ensures Accepts(rest, base, checks, done, es) && Tiled(rest, base, checks, done, es)
    decreases |rest|
  {
    var next := NextEntry(rest, base, checks, done);
    if next.value.None? {
      es := [];
      NothingMore(rest, base, checks, done);
    } else {
      var e := next.value.value.0;
      FirstRound(rest, base, checks, done, e);
      var tail := AcceptedIsTiled(rest[Footprint(e)..], base + Footprint(e), checks, done + [e]);
      es := [e] + tail;
      AcceptsFirst(rest, base, checks, done, e, tail);
      TiledFirst(rest, base, checks, done, e, tail);
    }
  }

  lemma {:induction false} TiledIsAccepted(rest: Bytes, base: nat, checks: Checks,
                                           done: seq<InspectedEntry>, es: seq<InspectedEntry>)
    requires base + |rest| <= U64_MAX
    requires Tiled(rest, base, checks, done, es)
    ensures Accepts(rest, base, checks, done, es)
    decreases |es|
  {
    assert forall i :: 0 <= i < |done| ==> (done + es)[i] == done[i];
    if es == [] {
      NothingMore(rest, base, checks, done);
    } else {
      var e, tail := es[0], es[1..];
      assert es == [e] + tail;
      TiledFirst(rest, base, checks, done, e, tail);
      assert done + es == (done + [e]) + tail;
      assert forall i :: 0 <= i < |done + [e]| ==> (done + es)[i] == (done + [e])[i];
      FirstRound(rest, base, checks, done, e);
      TiledIsAccepted(rest[Footprint(e)..], base + Footprint(e), checks, done + [e], tail);
      AcceptsFirst(rest, base, checks, done, e, tail);
    }
  }

  /** The inspector accepts an archive, with exactly these entries, if and only if the entries tile
      it, are in strict path order, do not collide under case folding and are not too many. */
  lemma InspectExact(archive: Bytes, checks: Checks, es: seq<InspectedEntry>)
    requires |archive| <= U64_MAX
    ensures InspectFrom(archive, 0, checks, []) == Ok(es)
       <==> Tiles(archive, 0, checks, es) && Admissible(es, checks)
  {
    assert [] + es == es && es[0..] == es;
    if InspectFrom(archive, 0, checks, []) == Ok(es) {
      var all := AcceptedIsTiled(archive, 0, checks, []);
      assert [] + all == all;
    }
    if Tiles(archive, 0, checks, es) && Admissible(es, checks) {
      TiledIsAccepted(archive, 0, checks, [], es);
    }
  }

  // ---------------------------------------------------------------- archives glued from chunks

  /** Chunks one after another, then the end blocks. */
  ghost function Glue(chunks: seq<Bytes>): Bytes {
    if chunks == [] then Repeat(NUL, 2 * BLOCK) else chunks[0] + Glue(chunks[1..])
  }

  /** Chunk `i` is as long as entry `i` takes, and the entries record the offsets that follow. */
  ghost predicate Fits(chunks: seq<Bytes>, es: seq<InspectedEntry>, base: nat)
    decreases |chunks|
  {
    if chunks == [] || es == [] then chunks == [] && es == []
    else
      && |chunks[0]| == Footprint(es[0])
      && es[0].dataOffset == base + BLOCK
      && Fits(chunks[1..], es[1..], base + |chunks[0]|)
  }

  /** One chunk reads as one entry. */
  ghost predicate ReadsAs(chunk: Bytes, checks: Checks, e: InspectedEntry) {
    && |chunk| == Footprint(e)
    && !AllZero(chunk[..BLOCK])
    && checks.read(chunk[..BLOCK]) == Ok(HeaderInfo(e.path, e.size, e.kind))
    && AllZero(chunk[BLOCK + e.size..])
  }

  lemma StartsWithChunk(chunk: Bytes, more: Bytes, base: nat, checks: Checks, e: InspectedEntry)
    requires |chunk| == Footprint(e) && e.dataOffset == base + BLOCK
    ensures StartsWith(chunk + more, base, checks, e) <==> ReadsAs(chunk, checks, e)
    ensures (chunk + more)[Footprint(e)..] == more
  {
    var all := chunk + more;
    assert all[..BLOCK] == chunk[..BLOCK];
    assert all[BLOCK + e.size..Footprint(e)] == chunk[BLOCK + e.size..];
  }

  lemma {:induction false} GlueTiles(chunks: seq<Bytes>, es: seq<InspectedEntry>, base: nat, checks: Checks)
    requires Fits(chunks, es, base) && |chunks| == |es|
    ensures Tiles(Glue(chunks), base, checks, es) <==> forall i :: 0 <= i < |es| ==> ReadsAs(chunks[i], checks, es[i])
    decreases |chunks|
  {
    if chunks != [] {
      var more := Glue(chunks[1..]);
      StartsWithChunk(chunks[0], more, base, checks, es[0]);
      GlueTiles(chunks[1..], es[1..], base + |chunks[0]|, checks);
      AllChunks(chunks, es, checks);
    }
  }

  lemma AllChunks(chunks: seq<Bytes>, es: seq<InspectedEntry>, checks: Checks)
    requires |chunks| == |es| && chunks != []
    ensures (forall i :: 0 <= i < |es| ==> ReadsAs(chunks[i], checks, es[i])) <==>
            ReadsAs(chunks[0], checks, es[0])
            && forall i :: 0 <= i < |es[1..]| ==> ReadsAs(chunks[1..][i], checks, es[1..][i])
  {
    if forall i :: 0 <= i < |es[1..]| ==> ReadsAs(chunks[1..][i], checks, es[1..][i]) {
      forall i | 0 < i < |es|
        ensures ReadsAs(chunks[i], checks, es[i])
      {
        assert chunks[i] == chunks[1..][i - 1] && es[i] == es[1..][i - 1];
      }
    }
  }

  lemma CutAfter(first: Bytes, rest: Bytes, lo: nat, hi: nat)
    requires lo <= hi <= |rest|
    ensures (first + rest)[|first| + lo..|first| + hi] == rest[lo..hi]
  {
  }

  lemma {:induction false} GlueData(chunks: seq<Bytes>, es: seq<InspectedEntry>, base: nat)
    requires Fits(chunks, es, base)
    ensures |chunks| == |es|
    ensures forall i :: 0 <= i < |es| ==> IsCutOut(chunks, es[i], base, i)
    decreases |chunks|
  {
    if chunks != [] {
      var more := Glue(chunks[1..]);
      GlueData(chunks[1..], es[1..], base + |chunks[0]|);
      forall i | 0 <= i < |es|
        ensures IsCutOut(chunks, es[i], base, i)
      {
        if i > 0 {
          assert IsCutOut(chunks[1..], es[1..][i - 1], base + |chunks[0]|, i - 1);
          var at := es[i].dataOffset - base - |chunks[0]|;
          CutAfter(chunks[0], more, at, at + es[i].size);
        }
      }
    }
  }

  /** The recorded offset and size cut the data of chunk `i` out of the whole. */
  ghost predicate IsCutOut(chunks: seq<Bytes>, e: InspectedEntry, base: nat, i: nat)
    requires i < |chunks|
  {
    var at := e.dataOffset - base;
    && |chunks[i]| == Footprint(e)
    && 0 <= at && at + e.size <= |Glue(chunks)|
    && Glue(chunks)[at..at + e.size] == chunks[i][BLOCK..BLOCK + e.size]
  }

  // ---------------------------------------------------------------- the tiling, spelled out

  function TotalSize(es: seq<InspectedEntry>): nat {
    if es == [] then 0 else Footprint(es[0]) + TotalSize(es[1..])
  }

  lemma {:induction false} TilesLayout(rest: Bytes, base: nat, checks: Checks, es: seq<InspectedEntry>)
    requires Tiles(rest, base, checks, es)
    ensures |rest| == TotalSize(es) + 2 * BLOCK
    ensures forall i :: 0 <= i < |es| ==>
      base + BLOCK <= es[i].dataOffset && es[i].dataOffset + es[i].size + 2 * BLOCK <= base + |rest|
    ensures forall i, j :: 0 <= i < j < |es| ==> es[i].dataOffset + es[i].size + BLOCK <= es[j].dataOffset
    decreases |es|
  {
    if es != [] {
      var length := Footprint(es[0]);
      TilesLayout(rest[length..], base + length, checks, es[1..]);
      assert forall i :: 0 < i < |es| ==> es[i] == es[1..][i - 1];
    }
  }

  /** Some header block reads as this entry. */
  ghost predicate HasHeader(e: InspectedEntry, checks: Checks) {
    exists header: Bytes :: checks.read(header) == Ok(HeaderInfo(e.path, e.size, e.kind))
  }

  lemma {:induction false} TilesHeaders(rest: Bytes, base: nat, checks: Checks, es: seq<InspectedEntry>, i: nat)
    requires Tiles(rest, base, checks, es) && i < |es|
    ensures HasHeader(es[i], checks)
    decreases |es|
  {
    if i > 0 {
      var length := Footprint(es[0]);
      TilesHeaders(rest[length..], base + length, checks, es[1..], i - 1);
    }
  }

  /** A file path without its trailing slash is relative, uses no "." or ".." part, and contains no
      backslash, colon or control character; only directories end in a slash. */
  predicate CleanPath(path: Bytes, kind: Kind) {
    && path != []
    && (kind == Directory <==> path[|path| - 1] == SLASH)
    && var bare := if kind == Directory then path[..|path| - 1] else path;
       Utf8.Valid(bare) && SafeRelative(bare)
  }

  lemma ParsedPathIsClean(joined: Bytes, kind: Kind, maxPathBytes: nat)
    requires ParsePath(joined, kind, maxPathBytes).Ok?
    ensures CleanPath(ParsePath(joined, kind, maxPathBytes).value, kind)
  {
    if joined[|joined| - 1] == SLASH {
      Utf8.AsciiBoundary(joined, |joined| - 1);
    } else if kind == Directory {
      assert (joined + [SLASH])[..|joined|] == joined;
    }
  }

  /** Everything an accepted archive guarantees: exact tiling, ascending disjoint data ranges inside
      the archive, strictly ascending and clean paths, and sizes within the limits. */
  lemma AcceptedArchive(archive: Bytes, limits: Limits, fold: Bytes -> Bytes, es: seq<InspectedEntry>)
    requires |archive| <= U64_MAX
    requires InspectFrom(archive, 0, ChecksFor(limits, fold), []) == Ok(es)
    ensures |archive| == TotalSize(es) + 2 * BLOCK
    ensures forall i :: 0 <= i < |es| ==> es[i].dataOffset + es[i].size <= |archive| - 2 * BLOCK
    ensures forall i, j :: 0 <= i < j < |es| ==> es[i].dataOffset + es[i].size < es[j].dataOffset
    ensures SortedPaths(es) && DistinctFolded(es, fold)
    ensures |es| <= limits.maxEntries && |es| <= 128
    ensures forall i :: 0 <= i < |es| ==>
      CleanPath(es[i].path, es[i].kind) && es[i].size <= HARD_MAX_EXPANDED_BYTES
      && (es[i].kind == Directory ==> es[i].size == 0)
  {
    var checks := ChecksFor(limits, fold);
    InspectExact(archive, checks, es);
    TilesLayout(archive, 0, checks, es);
    forall i | 0 <= i < |es|
      ensures CleanPath(es[i].path, es[i].kind) && es[i].size <= HARD_MAX_EXPANDED_BYTES
              && (es[i].kind == Directory ==> es[i].size == 0)
    {
      TilesHeaders(archive, 0, checks, es, i);
      var header: Bytes :| checks.read(header) == Ok(HeaderInfo(es[i].path, es[i].size, es[i].kind));
      ReadHeaderIsClean(header, limits);
    }
  }

  lemma ReadHeaderIsClean(header: Bytes, limits: Limits)
    requires |header| == BLOCK && ReadHeader(header, limits).Ok?
    ensures var info := ReadHeader(header, limits).value;
            CleanPath(info.path, info.kind) && info.size <= HARD_MAX_EXPANDED_BYTES
            && (info.kind == Directory ==> info.size == 0)
  {
    var kind := ReadHeader(header, limits).value.kind;
    assert ParseUstarPath(header, kind, limits.PathBytes()).Ok?;
    var name := ParseNulPadded(header[..100]).value;
    var prefix := ParseNulPadded(header[345..500]).value;
    ParsedPathIsClean(Join(prefix, name), kind, limits.PathBytes());
  }

  // ---------------------------------------------------------------- overflow

  ghost predicate BoundedReader(read: Bytes -> Result<HeaderInfo, InspectError>) {
    forall header: Bytes ::
      if read(header).Ok? then read(header).value.size <= HARD_MAX_EXPANDED_BYTES
      else read(header).error != ExpandedLimit
  }

  lemma {:induction false} WalkDoesNotOverflow(rest: Bytes, base: nat, checks: Checks, done: seq<InspectedEntry>)
    requires base + |rest| <= HARD_MAX_EXPANDED_BYTES && BoundedReader(checks.read)
    ensures InspectFrom(rest, base, checks, done) != Err(ExpandedLimit)
    decreases |rest|
  {
    var next := NextEntry(rest, base, checks, done);
    if next.Ok? && next.value.Some? {
      var (e, length) := next.value.value;
      WalkDoesNotOverflow(rest[length..], base + length, checks, done + [e]);
    }
  }

  lemma HeaderErrors(header: Bytes, limits: Limits)
    requires |header| == BLOCK
    ensures ReadHeader(header, limits) != Err(ExpandedLimit)
  {
    assert ValidateChecksum(header) != Err(ExpandedLimit);
    PathErrors(header, Kind.File, limits.PathBytes());
    PathErrors(header, Directory, limits.PathBytes());
  }

  lemma PathErrors(header: Bytes, kind: Kind, maxPathBytes: nat)
    requires |header| == BLOCK
    ensures ParseUstarPath(header, kind, maxPathBytes) != Err(ExpandedLimit)
  {
    var name, prefix := ParseNulPadded(header[..100]), ParseNulPadded(header[345..500]);
    assert name != Err(ExpandedLimit) && prefix != Err(ExpandedLimit);
    if name.Ok? && prefix.Ok? {
      assert ParsePath(Join(prefix.value, name.value), kind, maxPathBytes) != Err(ExpandedLimit);
    }
  }

  /** The errors of the checked additions are unreachable for every archive that the decompressor
      lets through. */
  lemma NoOverflow(archive: Bytes, limits: Limits, fold: Bytes -> Bytes)
    requires |archive| <= HARD_MAX_EXPANDED_BYTES
    ensures InspectFrom(archive, 0, ChecksFor(limits, fold), []) != Err(ExpandedLimit)
  {
    var read := ChecksFor(limits, fold).read;
    forall header: Bytes
      ensures if read(header).Ok? then read(header).value.size <= HARD_MAX_EXPANDED_BYTES
              else read(header).error != ExpandedLimit
    {
      if |header| == BLOCK {
        HeaderErrors(header, limits);
        if ReadHeader(header, limits).Ok? {
          ReadHeaderIsClean(header, limits);
        }
      }
    }
    WalkDoesNotOverflow(archive, 0, ChecksFor(limits, fold), []);
  }
}
