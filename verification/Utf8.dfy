/** UTF-8 as Rust's standard library reads it: `str::from_utf8`, `String::from_utf8_lossy`
    and `str::is_char_boundary`. */
module Utf8 {
  import opened ByteStrings

  predicate Continuation(b: byte) {
    0x80 <= b < 0xC0
  }

  /** The length announced by a first byte; 0 for a byte that cannot start a character. */
  function Width(b: byte): (w: nat)
    ensures w <= 4
  {
    if b < 0x80 then 1
    else if 0xC2 <= b < 0xE0 then 2
    else if 0xE0 <= b < 0xF0 then 3
    else if 0xF0 <= b < 0xF5 then 4
    else 0
  }

  /** Whether a second byte may follow a first byte: no overlong form, no surrogate, and nothing
      above U+10FFFF. */
  predicate SecondOk(first: byte, second: byte) {
    if first == 0xE0 then 0xA0 <= second < 0xC0
    else if first == 0xED then 0x80 <= second < 0xA0
    else if first == 0xF0 then 0x90 <= second < 0xC0
    else if first == 0xF4 then 0x80 <= second < 0x90
    else Continuation(second)
  }

  /** How many leading bytes are acceptable as the start of one character. */
  function GoodPrefix(s: Bytes): (n: nat)
    ensures n <= 4 && n <= |s|
  {
    if s == [] || Width(s[0]) == 0 then 0
    else
      var w := Width(s[0]);
      if w < 2 || |s| < 2 || !SecondOk(s[0], s[1]) then 1
      else if w < 3 || |s| < 3 || !Continuation(s[2]) then 2
      else if w < 4 || |s| < 4 || !Continuation(s[3]) then 3
      else 4
  }

  /** The length of the character at the start of `s`, or 0 when there is none. */
  function CharLen(s: Bytes): (n: nat)
    ensures n <= |s|
  {
    if s != [] && GoodPrefix(s) == Width(s[0]) then GoodPrefix(s) else 0
  }

  predicate Valid(s: Bytes) {
    s == [] || (CharLen(s) > 0 && Valid(s[CharLen(s)..]))
  }

  /** A Rust `String`. */
  type Text = s: Bytes | Valid(s) witness []

  /** The code point of the character at the start of `s`. */
  function CodePoint(s: Bytes): int
    requires CharLen(s) > 0
  {
    match CharLen(s)
    case 1 => s[0]
    case 2 => (s[0] as int - 0xC0) * 0x40 + (s[1] as int - 0x80)
    case 3 => (s[0] as int - 0xE0) * 0x1000 + (s[1] as int - 0x80) * 0x40 + (s[2] as int - 0x80)
    case _ =>
      (s[0] as int - 0xF0) * 0x40000 + (s[1] as int - 0x80) * 0x1000
      + (s[2] as int - 0x80) * 0x40 + (s[3] as int - 0x80)
  }

  /** `str::chars`. */
  function Chars(s: Bytes): seq<int>
    requires Valid(s)
  {
    if s == [] then [] else [CodePoint(s)] + Chars(s[CharLen(s)..])
  }

  const REPLACEMENT: Bytes := [0xEF, 0xBF, 0xBD]

  /** `String::from_utf8_lossy`: each maximal ill-formed piece becomes U+FFFD. */
  function Lossy(s: Bytes): Bytes {
    if s == [] then []
    else if CharLen(s) > 0 then s[..CharLen(s)] + Lossy(s[CharLen(s)..])
    else
      var skip := if GoodPrefix(s) == 0 then 1 else GoodPrefix(s);
      REPLACEMENT + Lossy(s[skip..])
  }

  // ---------------------------------------------------------------- concatenation

  lemma CharLenPrefix(a: Bytes, b: Bytes)
    requires CharLen(a) > 0
    ensures CharLen(a + b) == CharLen(a)
    ensures (a + b)[CharLen(a)..] == a[CharLen(a)..] + b
    ensures CodePoint(a + b) == CodePoint(a)
  {
    assert (a + b)[..|a|] == a;
    forall i | 0 <= i < |a|
      ensures (a + b)[i] == a[i]
    {
    }
  }

  lemma {:induction false} ValidConcat(a: Bytes, b: Bytes)
    requires Valid(a)
    ensures Valid(a + b) <==> Valid(b)
    ensures Valid(b) ==> Chars(a + b) == Chars(a) + Chars(b)
  {
    if a == [] {
      assert a + b == b;
    } else {
      CharLenPrefix(a, b);
      ValidConcat(a[CharLen(a)..], b);
      if Valid(b) {
        assert Chars(a + b) == [CodePoint(a)] + Chars(a[CharLen(a)..] + b);
      }
    }
  }

  /** ASCII bytes are their own code points. */
  lemma {:induction false} AsciiChars(s: Bytes)
    requires forall i :: 0 <= i < |s| ==> s[i] < 0x80
    ensures Valid(s) && Chars(s) == s
  {
    if s != [] {
      assert CharLen(s) == 1;
      AsciiChars(s[1..]);
      assert s == [s[0]] + s[1..];
    }
  }

  // ---------------------------------------------------------------- lossy decoding

  lemma {:induction false} LossyIsValid(s: Bytes)
    ensures Valid(Lossy(s))
  {
    if s != [] {
      if CharLen(s) > 0 {
        var n := CharLen(s);
        LossyIsValid(s[n..]);
        OneChar(s);
        ValidConcat(s[..n], Lossy(s[n..]));
      } else {
        var skip := if GoodPrefix(s) == 0 then 1 else GoodPrefix(s);
        LossyIsValid(s[skip..]);
        assert CharLen(REPLACEMENT) == 3;
        assert Valid(REPLACEMENT[3..]);
        ValidConcat(REPLACEMENT, Lossy(s[skip..]));
      }
    }
  }

  lemma OneChar(s: Bytes)
    requires CharLen(s) > 0
    ensures Valid(s[..CharLen(s)])
    ensures CharLen(s[..CharLen(s)]) == CharLen(s)
  {
    var c := s[..CharLen(s)];
    forall i | 0 <= i < |c|
      ensures c[i] == s[i]
    {
    }
    assert CharLen(c) == CharLen(s);
    assert Valid(c[CharLen(c)..]);
  }

  /** Lossy decoding changes nothing exactly when the bytes are UTF-8. */
  lemma {:induction false} LossyIdentity(s: Bytes)
    ensures Lossy(s) == s <==> Valid(s)
  {
    LossyIsValid(s);
    if Valid(s) {
      LossyKeepsValid(s);
    }
  }

  lemma {:induction false} LossyKeepsValid(s: Bytes)
    requires Valid(s)
    ensures Lossy(s) == s
  {
    if s != [] {
      LossyKeepsValid(s[CharLen(s)..]);
      assert s == s[..CharLen(s)] + s[CharLen(s)..];
    }
  }

  // ---------------------------------------------------------------- character boundaries

  /** `str::is_char_boundary`. */
  predicate IsCharBoundary(s: Bytes, i: int) {
    i == 0 || i == |s| || (0 < i < |s| && !Continuation(s[i]))
  }

  /** Cutting valid text at a boundary gives two valid texts. */
  lemma {:induction false} ValidAtBoundary(s: Bytes, i: nat)
    requires Valid(s) && i <= |s| && IsCharBoundary(s, i)
    ensures Valid(s[..i]) && Valid(s[i..])
  {
    if i == 0 {
      assert s[..0] == [] && s[0..] == s;
    } else if i == |s| {
      assert s[..i] == s && s[i..] == [];
    } else {
      var n := CharLen(s);
      CharTailContinues(s);
      assert n <= i;
      var rest := s[n..];
      assert i < |s| ==> rest[i - n] == s[i];
      ValidAtBoundary(rest, i - n);
      OneChar(s);
      ValidConcat(s[..n], rest[..i - n]);
      assert s[..i] == s[..n] + rest[..i - n];
      assert s[i..] == rest[i - n..];
    }
  }

  lemma CharTailContinues(s: Bytes)
    ensures forall k :: 0 < k < CharLen(s) ==> Continuation(s[k])
  {
  }

  /** The first byte of valid text starts a character. */
  lemma ValidStart(s: Bytes)
    requires Valid(s) && s != []
    ensures !Continuation(s[0])
  {
  }

  /** An ASCII byte in valid text is a character of its own. */
  lemma AsciiBoundary(s: Bytes, i: nat)
    requires Valid(s) && i < |s| && s[i] < 0x80
    ensures IsCharBoundary(s, i) && IsCharBoundary(s, i + 1)
    ensures Valid(s[..i])
  {
    ValidAtBoundary(s, i);
    var t := s[i..];
    assert CharLen(t) == 1;
    assert t[1..] == s[i + 1..];
    if i + 1 < |s| {
      ValidStart(s[i + 1..]);
    }
  }

  lemma CharsOf(s: Bytes, front: Bytes, back: Bytes)
    requires s == front + back && Valid(front) && Valid(back)
    ensures Valid(s) && Chars(s) == Chars(front) + Chars(back)
  {
    ValidConcat(front, back);
  }

  /** A boundary cuts the characters. */
  lemma CharsAtBoundary(s: Bytes, i: nat)
    requires Valid(s) && i <= |s| && IsCharBoundary(s, i)
    ensures Valid(s[..i]) && Valid(s[i..]) && Chars(s) == Chars(s[..i]) + Chars(s[i..])
  {
    TwoPieces(s, i);
    ValidAtBoundary(s, i);
    CharsOf(s, s[..i], s[i..]);
  }

  /** An ASCII byte occurs in valid text exactly when it occurs as a character. */
  lemma AsciiInChars(s: Bytes, i: nat)
    requires Valid(s) && i < |s| && s[i] < 0x80
    ensures s[i] as int in Chars(s)
  {
    AsciiBoundary(s, i);
    CharsAtBoundary(s, i);
    assert CharLen(s[i..]) == 1;
    assert Chars(s[i..])[0] == s[i];
    assert Chars(s)[|Chars(s[..i])|] == s[i];
  }
}
