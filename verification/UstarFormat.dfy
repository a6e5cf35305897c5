/** The "ustar Interchange Format" of the `pax` utility in POSIX.1-2017: the fixed 512-byte header
    and its numeric fields, as both the writer and the inspector of artifact packs use them. */
module UstarFormat {
  import opened ByteStrings

  const BLOCK: nat := 512
  const ZERO_DIGIT: byte := 48

  /** How a reader puts the prefix and name fields together. */
  function Join(prefix: Bytes, name: Bytes): Bytes {
    if prefix == [] then name else prefix + [SLASH] + name
  }

  datatype Kind = File | Directory

  const FILE_TYPE: byte := 48
  const DIRECTORY_TYPE: byte := 53

  /** "ustar", NUL, then the version "00". */
  const MAGIC: Bytes := [117, 115, 116, 97, 114, 0]
  const VERSION: Bytes := [48, 48]

  /** The mode the format's users agree on: 0755 for directories and programs, 0644 otherwise. */
  const MODE_EXECUTABLE: nat := 493
  const MODE_PLAIN: nat := 420

  function Padding(size: nat): nat {
    (512 - size % 512) % 512
  }

  function RoundUp(size: nat): nat {
    (size + 511) / 512 * 512
  }

  lemma PaddingRoundsUp(size: nat)
    ensures size + Padding(size) == RoundUp(size)
    ensures RoundUp(size) % 512 == 0
  {
  }

  predicate AllZero(s: Bytes) {
    forall i :: 0 <= i < |s| ==> s[i] == 0
  }

  // ---------------------------------------------------------------- octal numerals

  function Pow8(n: nat): (p: nat)
    ensures p > 0
  {
    if n == 0 then 1 else 8 * Pow8(n - 1)
  }

  /** The shortest octal numeral. */
  function Numeral(value: nat): (s: Bytes)
    ensures |s| > 0
  {
    if value < 8 then [ZERO_DIGIT + value] else Numeral(value / 8) + [ZERO_DIGIT + value % 8]
  }

  /** `format!("{value:0width$o}")`: at least `width` digits, more when the value needs them. */
  function Padded(value: nat, width: nat): (s: Bytes) {
    var digits := Numeral(value);
    Repeat(ZERO_DIGIT, if |digits| < width then width - |digits| else 0) + digits
  }

  predicate IsOctal(s: Bytes) {
    forall i :: 0 <= i < |s| ==> ZERO_DIGIT <= s[i] < ZERO_DIGIT + 8
  }

  /** The number that a string of octal digits denotes. */
  function OctalValue(s: Bytes): nat
    requires IsOctal(s)
  {
    if s == [] then 0 else OctalValue(s[..|s| - 1]) * 8 + (s[|s| - 1] - ZERO_DIGIT)
  }

  lemma {:induction false} NumeralValue(value: nat)
    ensures IsOctal(Numeral(value)) && OctalValue(Numeral(value)) == value
  {
    if value >= 8 {
      NumeralValue(value / 8);
      var s := Numeral(value);
      assert s[..|s| - 1] == Numeral(value / 8);
    } else {
      assert Numeral(value)[..0] == [];
    }
  }

  lemma {:induction false} NumeralLength(value: nat, width: nat)
    requires width > 0
    ensures |Numeral(value)| <= width <==> value < Pow8(width)
  {
    if value >= 8 {
      if width == 1 {
        assert Pow8(1) == 8 * Pow8(0);
      } else {
        NumeralLength(value / 8, width - 1);
      }
    } else {
      Pow8AtLeast(width);
    }
  }

  lemma {:induction false} Pow8AtLeast(n: nat)
    requires n > 0
    ensures Pow8(n) >= 8
  {
    if n > 1 {
      Pow8AtLeast(n - 1);
    }
  }

  lemma {:induction false} LeadingZeros(n: nat, s: Bytes)
    requires IsOctal(s)
    ensures IsOctal(Repeat(ZERO_DIGIT, n) + s)
    ensures OctalValue(Repeat(ZERO_DIGIT, n) + s) == OctalValue(s)
    decreases n + |s|
  {
    var t := Repeat(ZERO_DIGIT, n) + s;
    if s != [] {
      LeadingZeros(n, s[..|s| - 1]);
      assert t[..|t| - 1] == Repeat(ZERO_DIGIT, n) + s[..|s| - 1];
    } else if n > 0 {
      LeadingZeros(n - 1, []);
      assert t[..|t| - 1] == Repeat(ZERO_DIGIT, n - 1) + [];
    }
  }

  /** A padded numeral fills its field exactly when the value fits, and denotes the value. */
  lemma PaddedFits(value: nat, width: nat)
    requires width > 0
    ensures |Padded(value, width)| == width <==> value < Pow8(width)
    ensures IsOctal(Padded(value, width)) && OctalValue(Padded(value, width)) == value
  {
    NumeralLength(value, width);
    NumeralValue(value);
    var digits := Numeral(value);
    LeadingZeros(if |digits| < width then width - |digits| else 0, digits);
  }

  /** The bytes of a numeric header field: zero-padded digits and one NUL. */
  function NumericField(value: nat, width: nat): Bytes
    requires width > 0
  {
    Padded(value, width - 1) + [NUL]
  }

  // ---------------------------------------------------------------- the header block

  function At(s: Bytes, i: int): byte {
    if 0 <= i < |s| then s[i] else NUL
  }

  /** Byte `i` of a header with the given fields. */
  function HeaderByte(prefix: Bytes, name: Bytes, mode: nat, size: nat, entryType: byte,
                      checksum: Bytes, i: nat): byte
  {
    if i < 100 then At(name, i)
    else if i < 108 then At(NumericField(mode, 8), i - 100)
    else if i < 116 then At(NumericField(0, 8), i - 108)
    else if i < 124 then At(NumericField(0, 8), i - 116)
    else if i < 136 then At(NumericField(size, 12), i - 124)
    else if i < 148 then At(NumericField(0, 12), i - 136)
    else if i < 156 then At(checksum, i - 148)
    else if i == 156 then entryType
    else if i < 257 then NUL
    else if i < 263 then At(MAGIC, i - 257)
    else if i < 265 then At(VERSION, i - 263)
    else if i < 345 then NUL
    else if i < 500 then At(prefix, i - 345)
    else NUL
  }

  function HeaderWith(prefix: Bytes, name: Bytes, mode: nat, size: nat, entryType: byte,
                      checksum: Bytes): (h: Bytes)
    ensures |h| == BLOCK
  {
    seq(BLOCK, i requires 0 <= i < BLOCK => HeaderByte(prefix, name, mode, size, entryType, checksum, i))
  }

  function Sum(s: Bytes): nat {
    if s == [] then 0 else s[0] + Sum(s[1..])
  }

  lemma {:induction false} SumBound(s: Bytes)
    ensures Sum(s) <= 255 * |s|
  {
    if s != [] {
      SumBound(s[1..]);
    }
  }

  /** The header with its checksum field read as eight spaces. */
  function Blanked(header: Bytes): (h: Bytes)
    ensures |h| == |header|
  {
    seq(|header|, i requires 0 <= i < |header| => if 148 <= i < 156 then SPACE else header[i])
  }

  function Checksum(header: Bytes): nat {
    Sum(Blanked(header))
  }

  function ChecksumField(sum: nat): Bytes {
    Padded(sum, 6) + [NUL, SPACE]
  }

  /** The complete header: its checksum field holds the sum of all other bytes plus eight spaces. */
  function Header(prefix: Bytes, name: Bytes, mode: nat, size: nat, entryType: byte): (h: Bytes)
    ensures |h| == BLOCK
  {
    var blank := HeaderWith(prefix, name, mode, size, entryType, Repeat(SPACE, 8));
    HeaderWith(prefix, name, mode, size, entryType, ChecksumField(Sum(blank)))
  }

  /** Six octal digits always hold the sum of a header, so the writer's checksum error is
      unreachable. */
  lemma ChecksumFits(header: Bytes)
    requires |header| == BLOCK
    ensures Sum(header) < Pow8(6)
    ensures |ChecksumField(Sum(header))| == 8
  {
    SumBound(header);
    assert Pow8(6) == 262144 by {
      assert Pow8(1) == 8 && Pow8(2) == 64 && Pow8(3) == 512;
      assert Pow8(4) == 4096 && Pow8(5) == 32768;
    }
    PaddedFits(Sum(header), 6);
  }

  lemma ChecksumOfHeader(prefix: Bytes, name: Bytes, mode: nat, size: nat, entryType: byte)
    ensures Checksum(Header(prefix, name, mode, size, entryType))
         == Sum(HeaderWith(prefix, name, mode, size, entryType, Repeat(SPACE, 8)))
  {
    var blank := HeaderWith(prefix, name, mode, size, entryType, Repeat(SPACE, 8));
    var h := Header(prefix, name, mode, size, entryType);
    assert Blanked(h) == blank by {
      forall i | 0 <= i < BLOCK
        ensures Blanked(h)[i] == blank[i]
      {
      }
    }
  }
}
