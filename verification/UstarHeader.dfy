/** What the archive inspector demands of one header block:
    `collect-diff-context-cli/src/artifacts/pack.rs`. */
module UstarHeader {
  import opened ByteStrings
  import opened UstarFormat
  import Utf8

  const HARD_MAX_ENTRIES: nat := 128
  const HARD_MAX_EXPANDED_BYTES: nat := 2 * 1024 * 1024 * 1024
  const HARD_MAX_PATH_BYTES: nat := 512
  const HARD_MAX_METADATA_BYTES: nat := 16 * 1024

  const COLON: byte := 58
  const BIN_DIRECTORY: Bytes := [98, 105, 110, 47]
  const DOT: Bytes := [46]
  const DOT_DOT: Bytes := [46, 46]

  function Min(a: nat, b: nat): nat {
    if a < b then a else b
  }

  datatype Limits = Limits(maxEntries: nat, maxExpandedBytes: nat, maxFileBytes: nat,
                           maxPathBytes: nat, maxMetadataBytes: nat)
  {
    function Entries(): nat { Min(maxEntries, HARD_MAX_ENTRIES) }

    function FileBytes(): (n: nat)
      ensures n <= HARD_MAX_EXPANDED_BYTES
    {
      Min(Min(maxFileBytes, maxExpandedBytes), HARD_MAX_EXPANDED_BYTES)
    }

    function PathBytes(): nat { Min(maxPathBytes, HARD_MAX_PATH_BYTES) }

    function MetadataBytes(): nat { Min(maxMetadataBytes, HARD_MAX_METADATA_BYTES) }
  }

  datatype InspectError =
    | EndBlocks | EntryLimit | HeaderFormat | HeaderChecksum | MetadataLimit | EntryType
    | UnsafePath | HeaderMetadata | FileLimit | PathOrder | DuplicatePath | CaseCollision
    | ExpandedLimit | Truncated

  /** What one header says. */
  datatype HeaderInfo = HeaderInfo(path: Bytes, size: nat, kind: Kind)

  // ---------------------------------------------------------------- numeric fields

  predicate EndsField(b: byte) {
    b == NUL || b == SPACE
  }

  /** The first index of a NUL or space, or the length. */
  function Terminator(field: Bytes): (t: nat)
    ensures t <= |field|
    ensures t < |field| ==> EndsField(field[t])
    ensures forall i :: 0 <= i < t ==> !EndsField(field[i])
  {
    if field == [] || EndsField(field[0]) then 0 else 1 + Terminator(field[1..])
  }

  /** The fold with checked `u64` arithmetic. */
  function FoldOctal(digits: Bytes): Option<nat>
    requires IsOctal(digits)
  {
    if digits == [] then Some(0)
    else
      match FoldOctal(digits[..|digits| - 1])
      case None => None
      case Some(value) =>
        var next := value * 8 + (digits[|digits| - 1] - ZERO_DIGIT);
        if value * 8 > U64_MAX || next > U64_MAX then None else Some(next)
  }

  function ParseOctal(field: Bytes): Option<nat> {
    var t := Terminator(field);
    if t == |field| then None
    else if (exists b :: b in field[t..] && !EndsField(b)) || !IsOctal(field[..t]) || t == 0 then None
    else FoldOctal(field[..t])
  }

  lemma {:induction false} FoldOctalExact(digits: Bytes)
    requires IsOctal(digits)
    ensures FoldOctal(digits) == if OctalValue(digits) <= U64_MAX then Some(OctalValue(digits)) else None
  {
    if digits != [] {
      FoldOctalExact(digits[..|digits| - 1]);
    }
  }

  /** A numeric field is a non-empty run of octal digits, then at least one NUL or space and
      nothing else; it denotes the number those digits spell. */
  ghost predicate SpellsOctal(field: Bytes, digits: Bytes, value: nat) {
    && digits != [] && IsOctal(digits) && digits < field
    && (forall i :: |digits| <= i < |field| ==> EndsField(field[i]))
    && value == OctalValue(digits) <= U64_MAX
  }

  lemma {:induction false} TerminatorAt(field: Bytes, t: nat)
    requires t < |field| && EndsField(field[t]) && forall i :: 0 <= i < t ==> !EndsField(field[i])
    ensures Terminator(field) == t
  {
    if t > 0 {
      TerminatorAt(field[1..], t - 1);
    }
  }

  lemma ParseOctalExact(field: Bytes, value: nat)
    ensures ParseOctal(field) == Some(value) <==> exists digits :: SpellsOctal(field, digits, value)
  {
    var t := Terminator(field);
    if ParseOctal(field) == Some(value) {
      FoldOctalExact(field[..t]);
      forall i | t <= i < |field|
        ensures EndsField(field[i])
      {
        assert field[i] == field[t..][i - t];
      }
      assert SpellsOctal(field, field[..t], value);
    }
    if digits :| SpellsOctal(field, digits, value) {
      TerminatorAt(field, |digits|);
      assert field[..t] == digits;
      FoldOctalExact(digits);
    }
  }

  /** Reading undoes writing for every value that fits its field. */
  lemma ParseUndoesWrite(value: nat, width: nat)
    requires 1 < width && value < Pow8(width - 1) && value <= U64_MAX
    ensures ParseOctal(NumericField(value, width)) == Some(value)
  {
    PaddedFits(value, width - 1);
    assert SpellsOctal(NumericField(value, width), Padded(value, width - 1), value);
    ParseOctalExact(NumericField(value, width), value);
  }

  predicate NumericZeroOrEmpty(field: Bytes) {
    AllZero(field) || ParseOctal(field) == Some(0)
  }

  // ---------------------------------------------------------------- header checks

  predicate IsDigit(b: byte) {
    48 <= b <= 57
  }

  function ValidateChecksum(header: Bytes): Result<(), InspectError>
    requires |header| == BLOCK
  {
    if (exists i :: 148 <= i < 154 && !IsDigit(header[i])) || header[154] != NUL || header[155] != SPACE
    then Err(HeaderFormat)
    else
      match ParseOctal(header[148..155])
      case None => Err(HeaderFormat)
      case Some(expected) => if expected != Checksum(header) then Err(HeaderChecksum) else Ok(())
  }

  function ParseNulPadded(field: Bytes): Result<Bytes, InspectError> {
    var end := IndexOf(field, NUL);
    if end == |field| then Ok(field)
    else if !AllZero(field[end..]) then Err(HeaderFormat)
    else Ok(field[..end])
  }

  predicate IsControl(c: int) {
    0 <= c < 0x20 || 0x7F <= c < 0xA0
  }

  predicate UnsafePart(part: Bytes) {
    part == [] || part == DOT || part == DOT_DOT
  }

  predicate SafeRelative(path: Bytes)
    requires Utf8.Valid(path)
  {
    && path != []
    && path[0] != SLASH
    && BACKSLASH !in path
    && COLON !in path
    && (forall part :: part in Split(path, SLASH) ==> !UnsafePart(part))
    && (forall c :: c in Utf8.Chars(path) ==> !IsControl(c))
  }

  /** The checks on the joined path; a directory comes out with exactly one trailing slash. */
  function ParsePath(joined: Bytes, kind: Kind, maxPathBytes: nat): Result<Bytes, InspectError> {
    if !Utf8.Valid(joined) || joined == [] || |joined| > maxPathBytes then Err(UnsafePath)
    else if joined[|joined| - 1] == SLASH then
      if kind == Kind.File then Err(UnsafePath)
      else
        Utf8.AsciiBoundary(joined, |joined| - 1);
        var normalized := joined[..|joined| - 1];
        if SafeRelative(normalized) then Ok(joined) else Err(UnsafePath)
    else if !SafeRelative(joined) then Err(UnsafePath)
    else if kind == Directory then Ok(joined + [SLASH])
    else Ok(joined)
  }

  function ParseUstarPath(header: Bytes, kind: Kind, maxPathBytes: nat): Result<Bytes, InspectError>
    requires |header| == BLOCK
  {
    match ParseNulPadded(header[..100])
    case Err(error) => Err(error)
    case Ok(name) =>
      match ParseNulPadded(header[345..500])
      case Err(error) => Err(error)
      case Ok(prefix) => ParsePath(Join(prefix, name), kind, maxPathBytes)
  }

  function ExpectedMode(path: Bytes, kind: Kind): nat {
    if kind == Directory || BIN_DIRECTORY <= path then MODE_EXECUTABLE else MODE_PLAIN
  }

  predicate CanonicalMetadata(header: Bytes, path: Bytes, kind: Kind)
    requires |header| == BLOCK
  {
    && ParseOctal(header[100..108]) == Some(ExpectedMode(path, kind))
    && ParseOctal(header[108..116]) == Some(0)
    && ParseOctal(header[116..124]) == Some(0)
    && ParseOctal(header[136..148]) == Some(0)
    && AllZero(header[157..257])
    && AllZero(header[265..329])
    && NumericZeroOrEmpty(header[329..337])
    && NumericZeroOrEmpty(header[337..345])
    && AllZero(header[500..512])
  }

  /** The types of pax and GNU metadata entries: x, g, L and K. */
  predicate MetadataType(t: byte) {
    t == 120 || t == 103 || t == 76 || t == 75
  }

  /** All checks that look at one header only, in the order the inspector makes them. */
  function ReadHeader(header: Bytes, limits: Limits): Result<HeaderInfo, InspectError>
    requires |header| == BLOCK
  {
    match ValidateChecksum(header)
    case Err(error) => Err(error)
    case Ok(_) =>
      if header[257..263] != MAGIC || header[263..265] != VERSION then Err(HeaderFormat)
      else
        match ParseOctal(header[124..136])
        case None => Err(HeaderFormat)
        case Some(size) => ReadTyped(header, size, limits)
  }

  function ReadTyped(header: Bytes, size: nat, limits: Limits): Result<HeaderInfo, InspectError>
    requires |header| == BLOCK
  {
    var t := header[156];
    if MetadataType(t) && size > limits.MetadataBytes() then Err(MetadataLimit)
    else if t != FILE_TYPE && t != DIRECTORY_TYPE then Err(EntryType)
    else
      var kind := if t == FILE_TYPE then Kind.File else Directory;
      match ParseUstarPath(header, kind, limits.PathBytes())
      case Err(error) => Err(error)
      case Ok(path) =>
        if !CanonicalMetadata(header, path, kind) then Err(HeaderMetadata)
        else if size > limits.FileBytes() then Err(FileLimit)
        else if kind == Directory && size != 0 then Err(HeaderMetadata)
        else Ok(HeaderInfo(path, size, kind))
  }
}
