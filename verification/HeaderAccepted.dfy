/** What a header block must spell to be accepted by the inspector in
    `collect-diff-context-cli/src/artifacts/pack.rs`, in terms of the fields of the "ustar Interchange
    Format" of the `pax` utility in POSIX.1-2017. */
module HeaderAccepted {
  import opened ByteStrings
  import opened UstarFormat
  import opened UstarHeader
  import opened UstarInspector
  import opened UstarAccepted
  import Utf8

  // ---------------------------------------------------------------- the checksum

  /** The sum of the first `n` bytes, with the eight bytes of the checksum field counted as spaces. */
  function SumWithSpaces(header: Bytes, n: nat): nat
    requires n <= |header|
  {
    if n == 0 then 0
    else SumWithSpaces(header, n - 1) + if 148 <= n - 1 < 156 then 32 else header[n - 1] as nat
  }

  lemma {:induction false} SumOfLast(s: Bytes, b: byte)
    ensures Sum(s + [b]) == Sum(s) + b
  {
    if s == [] {
      assert [b][1..] == [];
    } else {
      SumOfLast(s[1..], b);
      assert (s + [b])[1..] == s[1..] + [b];
    }
  }

  lemma {:induction false} SumOfFront(header: Bytes, n: nat)
    requires n <= |header|
    ensures Sum(Blanked(header)[..n]) == SumWithSpaces(header, n)
  {
    if n > 0 {
      SumOfFront(header, n - 1);
      var blank := Blanked(header);
      assert blank[..n] == blank[..n - 1] + [blank[n - 1]];
      SumOfLast(blank[..n - 1], blank[n - 1]);
    }
  }

  /** Six octal digits that denote the sum, a NUL and a space. */
  ghost predicate ChecksumSpelled(header: Bytes)
    requires |header| == 512
  {
    && IsOctal(header[148..154]) && OctalValue(header[148..154]) == SumWithSpaces(header, 512)
    && header[154] == 0 && header[155] == 32
  }

  lemma SixDigits(field: Bytes, value: nat)
    requires |field| == 7 && field[6] == NUL && forall i :: 0 <= i < 6 ==> IsDigit(field[i])
    ensures ParseOctal(field) == Some(value) <==> IsOctal(field[..6]) && OctalValue(field[..6]) == value <= U64_MAX
  {
    TerminatorAt(field, 6);
    if IsOctal(field[..6]) {
      FoldOctalExact(field[..6]);
    }
    assert field[6..] == [NUL];
  }

  lemma SumFits(header: Bytes)
    requires |header| == 512
    ensures Checksum(header) == SumWithSpaces(header, 512) <= U64_MAX
  {
    SumOfFront(header, 512);
    assert Blanked(header)[..512] == Blanked(header);
    SumBound(Blanked(header));
  }

  lemma ChecksumExactly(header: Bytes)
    requires |header| == 512
    ensures ValidateChecksum(header) == Ok(()) <==> ChecksumSpelled(header)
  {
    var field := header[148..155];
    SumFits(header);
    assert field[..6] == header[148..154];
    assert forall i :: 0 <= i < 6 ==> field[i] == header[148 + i];
    assert forall i :: 148 <= i < 154 ==> header[i] == field[i - 148];
    if forall i :: 148 <= i < 154 ==> IsDigit(header[i]) {
      if header[154] == NUL {
        SixDigits(field, SumWithSpaces(header, 512));
      }
    } else {
      assert !IsOctal(field[..6]) by {
        var i :| 148 <= i < 154 && !IsDigit(header[i]);
        assert field[..6][i - 148] == header[i];
      }
    }
  }

  /** A field that is not canonical is a format error, a canonical one with another sum a checksum error. */
  lemma ChecksumErrors(header: Bytes)
    requires |header| == 512
    ensures var canonical := IsOctal(header[148..154]) && header[154] == 0 && header[155] == 32;
            && (ValidateChecksum(header) == Err(HeaderFormat) <==> !canonical)
            && (ValidateChecksum(header) == Err(HeaderChecksum) <==>
                  canonical && OctalValue(header[148..154]) != SumWithSpaces(header, 512))
  {
    ChecksumExactly(header);
    if IsOctal(header[148..154]) && header[154] == 0 && header[155] == 32 {
      CanonicalIsRead(header);
    } else if ValidateChecksum(header) != Err(HeaderFormat) {
      ReadIsCanonical(header);
    }
  }

  lemma ReadIsCanonical(header: Bytes)
    requires |header| == 512 && ValidateChecksum(header) != Err(HeaderFormat)
    ensures IsOctal(header[148..154]) && header[154] == 0 && header[155] == 32
  {
    var field := header[148..155];
    assert field[..6] == header[148..154] && field[6] == NUL;
    assert forall i :: 0 <= i < 6 ==> field[i] == header[148 + i];
    SixDigits(field, ParseOctal(field).value);
  }

  lemma CanonicalIsRead(header: Bytes)
    requires |header| == 512 && IsOctal(header[148..154]) && header[154] == 0 && header[155] == 32
    ensures ValidateChecksum(header) != Err(HeaderFormat)
  {
    var field, digits := header[148..155], header[148..154];
    assert field[..6] == digits && field[6] == NUL;
    assert forall i :: 0 <= i < 6 ==> digits[i] == header[148 + i];
    assert forall i :: 148 <= i < 154 ==> header[i] == digits[i - 148];
    SixOctalDigits(digits);
    SixDigits(field, OctalValue(digits));
  }

  lemma {:induction false} SixOctalDigits(digits: Bytes)
    requires IsOctal(digits)
    ensures OctalValue(digits) < Pow8(|digits|)
  {
    if digits != [] {
      SixOctalDigits(digits[..|digits| - 1]);
    }
  }

  // ---------------------------------------------------------------- the path

  /** A text field: the text, then NULs to its end. */
  ghost predicate NulPadded(field: Bytes, text: Bytes) {
    text <= field && 0 !in text && forall i :: |text| <= i < |field| ==> field[i] == 0
  }

  lemma NulPaddedExactly(field: Bytes, text: Bytes)
    ensures ParseNulPadded(field) == Ok(text) <==> NulPadded(field, text)
  {
    var end := IndexOf(field, NUL);
    assert forall i :: end <= i < |field| ==> field[i] == field[end..][i - end];
    if NulPadded(field, text) {
      if |text| < |field| {
        assert field[..|text|] == text;
        IndexOfFirst(field, NUL, |text|);
      } else {
        assert field == text;
      }
    }
  }

  /** Relative, without empty, "." or ".." parts, and without backslash, colon or control characters. */
  ghost predicate SafeText(path: Bytes) {
    && Utf8.Valid(path) && path != [] && path[0] != 47
    && (forall b :: b in path ==> b != 92 && b != 58)
    && (forall part :: part in Split(path, 47) ==> part != [] && part != [46] && part != [46, 46])
    && (forall c :: c in Utf8.Chars(path) ==> !(0 <= c < 32) && !(127 <= c < 160))
  }

  lemma SafeExactly(path: Bytes)
    requires Utf8.Valid(path)
    ensures SafeRelative(path) <==> SafeText(path)
  {
  }

  lemma {:induction false} LastPart(path: Bytes)
    requires path != [] && path[|path| - 1] == SLASH
    ensures [] in Split(path, SLASH)
  {
    var front := path[..|path| - 1];
    assert path == front + [SLASH] + [];
    SplitConcat(front, SLASH, []);
    assert Split([], SLASH) == [[]];
    var parts := Split(path, SLASH);
    assert parts[|parts| - 1] == [];
  }

  /** The joined fields give the path of an entry; a directory may be written with or without its slash. */
  ghost predicate NamesPath(joined: Bytes, kind: Kind, path: Bytes, maxPathBytes: nat) {
    && |joined| <= maxPathBytes && |joined| <= 512
    && if kind.File? then joined == path && SafeText(path)
       else
         && path != [] && path[|path| - 1] == 47 && SafeText(path[..|path| - 1])
         && (joined == path || joined == path[..|path| - 1])
  }

  lemma DropSlash(path: Bytes)
    requires path != [] && path[|path| - 1] == SLASH
    ensures Utf8.Valid(path) <==> Utf8.Valid(path[..|path| - 1])
  {
    var bare := path[..|path| - 1];
    if Utf8.Valid(path) {
      Utf8.AsciiBoundary(path, |path| - 1);
    }
    if Utf8.Valid(bare) {
      Utf8.AsciiChars([SLASH]);
      Utf8.ValidConcat(bare, [SLASH]);
      assert path == bare + [SLASH];
    }
  }

  lemma FilePathExactly(joined: Bytes, path: Bytes, maxPathBytes: nat)
    ensures ParsePath(joined, Kind.File, maxPathBytes) == Ok(path) <==>
            |joined| <= maxPathBytes && joined == path && SafeText(path)
  {
    if Utf8.Valid(joined) {
      SafeExactly(joined);
      if joined != [] && joined[|joined| - 1] == SLASH {
        LastPart(joined);
      }
    }
  }

  lemma DirectoryPathExactly(joined: Bytes, path: Bytes, maxPathBytes: nat)
    ensures ParsePath(joined, Directory, maxPathBytes) == Ok(path) <==>
            && |joined| <= maxPathBytes
            && path != [] && path[|path| - 1] == 47 && SafeText(path[..|path| - 1])
            && (joined == path || joined == path[..|path| - 1])
  {
    if joined != [] && joined[|joined| - 1] == SLASH {
      DropSlash(joined);
      if Utf8.Valid(joined) {
        SafeExactly(joined[..|joined| - 1]);
        if Utf8.Valid(joined) {
          LastPart(joined);
        }
      }
    } else if Utf8.Valid(joined) {
      SafeExactly(joined);
      assert (joined + [SLASH])[..|joined|] == joined;
    }
    if path != [] && path[|path| - 1] == 47 {
      DropSlash(path);
      assert path == path[..|path| - 1] + [SLASH];
    }
  }

  lemma PathExactly(joined: Bytes, kind: Kind, path: Bytes, limits: Limits)
    ensures ParsePath(joined, kind, limits.PathBytes()) == Ok(path) <==>
            NamesPath(joined, kind, path, limits.maxPathBytes)
  {
    if kind.File? {
      FilePathExactly(joined, path, limits.PathBytes());
    } else {
      DirectoryPathExactly(joined, path, limits.PathBytes());
    }
  }

  ghost predicate PathFrom(header: Bytes, kind: Kind, path: Bytes, maxPathBytes: nat, name: Bytes, prefix: Bytes)
    requires |header| == 512
  {
    && NulPadded(header[0..100], name) && NulPadded(header[345..500], prefix)
    && NamesPath(if prefix == [] then name else prefix + [47] + name, kind, path, maxPathBytes)
  }

  /** The name and the prefix field spell the path. */
  ghost predicate PathSpelled(header: Bytes, kind: Kind, path: Bytes, maxPathBytes: nat)
    requires |header| == 512
  {
    exists name, prefix :: PathFrom(header, kind, path, maxPathBytes, name, prefix)
  }

  lemma PathFieldsExactly(header: Bytes, kind: Kind, path: Bytes, limits: Limits)
    requires |header| == 512
    ensures ParseUstarPath(header, kind, limits.PathBytes()) == Ok(path) <==>
            PathSpelled(header, kind, path, limits.maxPathBytes)
  {
    assert header[..100] == header[0..100];
    if ParseUstarPath(header, kind, limits.PathBytes()) == Ok(path) {
      var name, prefix := ParseNulPadded(header[..100]).value, ParseNulPadded(header[345..500]).value;
      NulPaddedExactly(header[0..100], name);
      NulPaddedExactly(header[345..500], prefix);
      PathExactly(Join(prefix, name), kind, path, limits);
      assert PathFrom(header, kind, path, limits.maxPathBytes, name, prefix);
    }
    if name, prefix :| PathFrom(header, kind, path, limits.maxPathBytes, name, prefix) {
      NulPaddedExactly(header[0..100], name);
      NulPaddedExactly(header[345..500], prefix);
      PathExactly(Join(prefix, name), kind, path, limits);
    }
  }

  // ---------------------------------------------------------------- the other fields

  /** The field denotes this number. */
  ghost predicate Denotes(field: Bytes, value: nat) {
    exists digits :: SpellsOctal(field, digits, value)
  }

  ghost predicate ZeroFrom(header: Bytes, lo: nat, hi: nat)
    requires lo <= hi <= |header|
  {
    forall i :: lo <= i < hi ==> header[i] == 0
  }

  lemma ZeroExactly(header: Bytes, lo: nat, hi: nat)
    requires lo <= hi <= |header|
    ensures AllZero(header[lo..hi]) <==> ZeroFrom(header, lo, hi)
  {
    assert forall i :: lo <= i < hi ==> header[i] == header[lo..hi][i - lo];
  }

  /** 0755 for directories and for files below "bin/", 0644 for other files. */
  ghost function ModeOf(path: Bytes, kind: Kind): nat {
    if kind.Directory? || (|path| >= 4 && path[..4] == [98, 105, 110, 47]) then 493 else 420
  }

  /** The mode is the expected one; owner, group and time are 0; link name, owner names and the rest of the
      block are zero, the device numbers zero or 0. */
  ghost predicate MetadataSpelled(header: Bytes, path: Bytes, kind: Kind)
    requires |header| == 512
  {
    && Denotes(header[100..108], ModeOf(path, kind))
    && Denotes(header[108..116], 0) && Denotes(header[116..124], 0) && Denotes(header[136..148], 0)
    && ZeroFrom(header, 157, 257) && ZeroFrom(header, 265, 329) && ZeroFrom(header, 500, 512)
    && (ZeroFrom(header, 329, 337) || Denotes(header[329..337], 0))
    && (ZeroFrom(header, 337, 345) || Denotes(header[337..345], 0))
  }

  lemma DenotesExactly(field: Bytes, value: nat)
    ensures ParseOctal(field) == Some(value) <==> Denotes(field, value)
  {
    ParseOctalExact(field, value);
  }

  lemma ModeExactly(path: Bytes, kind: Kind)
    ensures ExpectedMode(path, kind) == ModeOf(path, kind)
  {
  }

  lemma NumbersExactly(header: Bytes, path: Bytes, kind: Kind)
    requires |header| == 512
    ensures ParseOctal(header[100..108]) == Some(ExpectedMode(path, kind)) <==>
            Denotes(header[100..108], ModeOf(path, kind))
    ensures ParseOctal(header[108..116]) == Some(0) <==> Denotes(header[108..116], 0)
    ensures ParseOctal(header[116..124]) == Some(0) <==> Denotes(header[116..124], 0)
    ensures ParseOctal(header[136..148]) == Some(0) <==> Denotes(header[136..148], 0)
  {
    ModeExactly(path, kind);
    DenotesExactly(header[100..108], ModeOf(path, kind));
    DenotesExactly(header[108..116], 0);
    DenotesExactly(header[116..124], 0);
    DenotesExactly(header[136..148], 0);
  }

  lemma ZeroOrEmptyExactly(header: Bytes, lo: nat, hi: nat)
    requires lo <= hi <= |header|
    ensures NumericZeroOrEmpty(header[lo..hi]) <==> ZeroFrom(header, lo, hi) || Denotes(header[lo..hi], 0)
  {
    ZeroExactly(header, lo, hi);
    DenotesExactly(header[lo..hi], 0);
  }

  lemma MetadataExactly(header: Bytes, path: Bytes, kind: Kind)
    requires |header| == 512
    ensures CanonicalMetadata(header, path, kind) <==> MetadataSpelled(header, path, kind)
  {
    NumbersExactly(header, path, kind);
    ZeroExactly(header, 157, 257);
    ZeroExactly(header, 265, 329);
    ZeroOrEmptyExactly(header, 329, 337);
    ZeroOrEmptyExactly(header, 337, 345);
    ZeroExactly(header, 500, 512);
  }

  // ---------------------------------------------------------------- the whole block

  ghost predicate SizeAllowed(size: nat, kind: Kind, limits: Limits) {
    && size <= limits.maxFileBytes && size <= limits.maxExpandedBytes && size <= 2147483648
    && (kind.Directory? ==> size == 0)
  }

  /** "ustar", a NUL and "00"; then type "0" or "5", and all other fields. */
  ghost predicate Spells(header: Bytes, limits: Limits, info: HeaderInfo) {
    && |header| == 512
    && ChecksumSpelled(header)
    && header[257..265] == [117, 115, 116, 97, 114, 0, 48, 48]
    && header[156] == (if info.kind.File? then 48 else 53)
    && Denotes(header[124..136], info.size) && SizeAllowed(info.size, info.kind, limits)
    && PathSpelled(header, info.kind, info.path, limits.maxPathBytes)
    && MetadataSpelled(header, info.path, info.kind)
  }

  lemma MagicExactly(header: Bytes)
    requires |header| == 512
    ensures header[257..263] == MAGIC && header[263..265] == VERSION <==>
            header[257..265] == [117, 115, 116, 97, 114, 0, 48, 48]
  {
    var field := header[257..265];
    assert field[..6] == header[257..263] && field[6..] == header[263..265];
    assert field == field[..6] + field[6..];
  }

  lemma KindIs(header: Bytes, kind: Kind)
    requires |header| == 512
    ensures header[156] == (if kind.File? then 48 else 53) <==>
            (kind.File? && header[156] == FILE_TYPE) || (kind.Directory? && header[156] == DIRECTORY_TYPE)
  {
  }

  lemma SizeExactly(size: nat, kind: Kind, limits: Limits)
    ensures SizeAllowed(size, kind, limits) <==> size <= limits.FileBytes() && (kind.Directory? ==> size == 0)
  {
  }

  lemma TypedExactly(header: Bytes, size: nat, limits: Limits, info: HeaderInfo)
    requires |header| == 512 && Denotes(header[124..136], size)
    ensures ReadTyped(header, size, limits) == Ok(info) <==>
            && info.size == size
            && header[156] == (if info.kind.File? then 48 else 53)
            && SizeAllowed(info.size, info.kind, limits)
            && PathSpelled(header, info.kind, info.path, limits.maxPathBytes)
            && MetadataSpelled(header, info.path, info.kind)
  {
    KindIs(header, info.kind);
    PathFieldsExactly(header, info.kind, info.path, limits);
    MetadataExactly(header, info.path, info.kind);
    SizeExactly(size, info.kind, limits);
  }

  /** A block is accepted as a header that says `info` if and only if its fields spell `info`. */
  lemma ReadsExactly(header: Bytes, limits: Limits, info: HeaderInfo)
    requires |header| == 512
    ensures ReadHeader(header, limits) == Ok(info) <==> Spells(header, limits, info)
  {
    ChecksumExactly(header);
    MagicExactly(header);
    ParseOctalExact(header[124..136], info.size);
    if ParseOctal(header[124..136]).Some? {
      var size := ParseOctal(header[124..136]).value;
      ParseOctalExact(header[124..136], size);
      TypedExactly(header, size, limits, info);
    }
  }

  /** A type other than "0" and "5" is an error of its own, unless it is one of "x", "g", "L" and "K" and the
      entry is longer than metadata may be. */
  lemma TypeErrors(header: Bytes, size: nat, limits: Limits)
    requires |header| == 512 && header[156] != 48 && header[156] != 53
    ensures var metadata := header[156] in {120, 103, 76, 75};
            ReadTyped(header, size, limits) ==
            if metadata && (size > limits.maxMetadataBytes || size > 16384) then Err(MetadataLimit) else Err(EntryType)
  {
  }

  // ---------------------------------------------------------------- the blocks of an accepted archive

  /** The block before the data of an entry. */
  ghost predicate HasHeaderAt(rest: Bytes, base: nat, checks: Checks, e: InspectedEntry) {
    var at := e.dataOffset - base;
    && BLOCK <= at <= |rest|
    && checks.read(rest[at - BLOCK..at]) == Ok(HeaderInfo(e.path, e.size, e.kind))
  }

  lemma HeaderBeyond(rest: Bytes, base: nat, checks: Checks, e: InspectedEntry, length: nat)
    requires length <= |rest| && HasHeaderAt(rest[length..], base + length, checks, e)
    ensures HasHeaderAt(rest, base, checks, e)
  {
    var at := e.dataOffset - base;
    assert rest[length..] == rest[length..|rest|];
    SliceOfSlice(rest, length, |rest|, at - length - BLOCK, at - length);
  }

  lemma {:induction false} TilesHaveHeaders(rest: Bytes, base: nat, checks: Checks, es: seq<InspectedEntry>, i: nat)
    requires Tiles(rest, base, checks, es) && i < |es|
    ensures HasHeaderAt(rest, base, checks, es[i])
    decreases |es|
  {
    var length := Footprint(es[0]);
    if i > 0 {
      TilesHaveHeaders(rest[length..], base + length, checks, es[1..], i - 1);
      HeaderBeyond(rest, base, checks, es[i], length);
    } else {
      assert rest[0..BLOCK] == rest[..BLOCK];
    }
  }

  /** In an accepted archive the block before the data of each entry spells this entry. */
  lemma AcceptedBlocksSpell(archive: Bytes, limits: Limits, fold: Bytes -> Bytes, es: seq<InspectedEntry>, i: nat)
    requires |archive| <= U64_MAX && i < |es|
    requires InspectFrom(archive, 0, ChecksFor(limits, fold), []) == Ok(es)
    ensures 512 <= es[i].dataOffset <= |archive|
    ensures Spells(archive[es[i].dataOffset - 512..es[i].dataOffset], limits,
                   HeaderInfo(es[i].path, es[i].size, es[i].kind))
  {
    var checks := ChecksFor(limits, fold);
    InspectExact(archive, checks, es);
    TilesHaveHeaders(archive, 0, checks, es, i);
    var header := archive[es[i].dataOffset - 512..es[i].dataOffset];
    ReadsExactly(header, limits, HeaderInfo(es[i].path, es[i].size, es[i].kind));
  }
}
