/** UTF-8 from the other side: the encoding of the Unicode scalar values, section 3 of RFC 3629. */
module Utf8Exact {
  import opened ByteStrings
  import Utf8

  /** A code point that is not a surrogate. */
  predicate Scalar(c: int) {
    0 <= c < 0xD800 || 0xE000 <= c < 0x110000
  }

  function Encode(c: int): Bytes
    requires Scalar(c)
  {
    if c < 0x80 then [c]
    else if c < 0x800 then [0xC0 + c / 64, 0x80 + c % 64]
    else if c < 0x10000 then [0xE0 + c / 4096, 0x80 + c / 64 % 64, 0x80 + c % 64]
    else [0xF0 + c / 262144, 0x80 + c / 4096 % 64, 0x80 + c / 64 % 64, 0x80 + c % 64]
  }

  predicate Scalars(cs: seq<int>) {
    forall i :: 0 <= i < |cs| ==> Scalar(cs[i])
  }

  function EncodeAll(cs: seq<int>): Bytes
    requires Scalars(cs)
  {
    if cs == [] then [] else Encode(cs[0]) + EncodeAll(cs[1..])
  }

  /** The digits to base 64 make up the number. */
  lemma Digits(c: nat)
    ensures c == c / 64 * 64 + c % 64
    ensures c == c / 4096 * 4096 + c / 64 % 64 * 64 + c % 64
    ensures c == c / 262144 * 262144 + c / 4096 % 64 * 4096 + c / 64 % 64 * 64 + c % 64
  {
    assert c / 4096 == c / 64 / 64;
    assert c / 262144 == c / 4096 / 64;
  }

  /** An encoded character is read as itself, whatever follows it. */
  lemma ReadsEncoded(c: int, rest: Bytes)
    requires Scalar(c)
    ensures var s := Encode(c) + rest;
            Utf8.CharLen(s) == |Encode(c)| && Utf8.CodePoint(s) == c && s[|Encode(c)|..] == rest
  {
    Digits(c);
    var s := Encode(c) + rest;
    assert s[|Encode(c)|..] == rest;
  }

  lemma Split(high: nat, low: nat)
    requires low < 64
    ensures (high * 64 + low) / 64 == high && (high * 64 + low) % 64 == low
  {
  }

  lemma TwoBytes(a: nat, b: nat)
    requires 2 <= a < 32 && b < 64
    ensures var c := a * 64 + b;
            0x80 <= c < 0x800 && c / 64 == a && c % 64 == b
  {
    Split(a, b);
  }

  lemma ThreeBytes(a: nat, b: nat, c: nat)
    requires a < 16 && b < 64 && c < 64 && (a == 0 ==> b >= 32)
    ensures var d := a * 4096 + b * 64 + c;
            0x800 <= d < 0x10000 && d / 4096 == a && d / 64 % 64 == b && d % 64 == c
  {
    Split(a * 64 + b, c);
    Split(a, b);
  }

  lemma FourBytes(a: nat, b: nat, c: nat, d: nat)
    requires a <= 4 && b < 64 && c < 64 && d < 64 && (a == 0 ==> b >= 16) && (a == 4 ==> b < 16)
    ensures var e := a * 262144 + b * 4096 + c * 64 + d;
            && 0x10000 <= e < 0x110000 && e / 262144 == a && e / 4096 % 64 == b
            && e / 64 % 64 == c && e % 64 == d
  {
    Split((a * 64 + b) * 64 + c, d);
    Split(a * 64 + b, c);
    Split(a, b);
  }

  /** A character that is read has a scalar value, and its bytes are the encoding of that value. */
  lemma EncodesRead(s: Bytes)
    requires Utf8.CharLen(s) > 0
    ensures Scalar(Utf8.CodePoint(s)) && Encode(Utf8.CodePoint(s)) == s[..Utf8.CharLen(s)]
  {
    match Utf8.CharLen(s)
    case 1 =>
    case 2 => TwoBytes(s[0] - 0xC0, s[1] - 0x80);
    case 3 => ThreeBytes(s[0] - 0xE0, s[1] - 0x80, s[2] - 0x80);
    case _ => FourBytes(s[0] - 0xF0, s[1] - 0x80, s[2] - 0x80, s[3] - 0x80);
  }

  lemma {:induction false} EncodedIsValid(cs: seq<int>)
    requires Scalars(cs)
    ensures Utf8.Valid(EncodeAll(cs)) && Utf8.Chars(EncodeAll(cs)) == cs
  {
    if cs != [] {
      EncodedIsValid(cs[1..]);
      ReadsEncoded(cs[0], EncodeAll(cs[1..]));
    }
  }

  lemma {:induction false} ValidIsEncoded(s: Bytes)
    requires Utf8.Valid(s)
    ensures Scalars(Utf8.Chars(s)) && EncodeAll(Utf8.Chars(s)) == s
  {
    if s != [] {
      var n := Utf8.CharLen(s);
      var c, tail := Utf8.CodePoint(s), Utf8.Chars(s[n..]);
      ValidIsEncoded(s[n..]);
      EncodesRead(s);
      EncodeOneMore(c, tail);
      TwoPieces(s, n);
    }
  }

  lemma EncodeOneMore(c: int, tail: seq<int>)
    requires Scalar(c) && Scalars(tail)
    ensures Scalars([c] + tail) && EncodeAll([c] + tail) == Encode(c) + EncodeAll(tail)
  {
    assert ([c] + tail)[1..] == tail;
  }

  /** A byte string is valid if and only if it encodes some scalar values; these are its characters. */
  lemma ValidExactly(s: Bytes)
    ensures Utf8.Valid(s) <==> exists cs :: Scalars(cs) && s == EncodeAll(cs)
    ensures Utf8.Valid(s) ==> Scalars(Utf8.Chars(s)) && s == EncodeAll(Utf8.Chars(s))
  {
    if Utf8.Valid(s) {
      ValidIsEncoded(s);
    }
    if cs :| Scalars(cs) && s == EncodeAll(cs) {
      EncodedIsValid(cs);
    }
  }
}
