/** Git's quoting of paths: `quote_git_path` in `collect-diff-context-cli/src/app.rs`. */
module GitPaths {
  import opened ByteStrings

  const QUOTE: byte := 34

  predicate Printable(b: byte) {
    32 <= b < 127
  }

  predicate NeedsQuoting(b: byte) {
    b == QUOTE || b == BACKSLASH || !Printable(b)
  }

  /** The letter of a two-character escape, when the byte has one. */
  function EscapeLetter(b: byte): Option<byte> {
    match b
    case 7 => Some(97)
    case 8 => Some(98)
    case 9 => Some(116)
    case 10 => Some(110)
    case 11 => Some(118)
    case 12 => Some(102)
    case 13 => Some(114)
    case 34 => Some(QUOTE)
    case 92 => Some(BACKSLASH)
    case _ => None
  }

  /** `{:03o}` for one byte. */
  function OctalTriple(b: byte): Bytes {
    [48 + b / 64, 48 + b / 8 % 8, 48 + b % 8]
  }

  function QuoteByte(b: byte): Bytes {
    match EscapeLetter(b)
    case Some(letter) => [BACKSLASH, letter]
    case None => if !Printable(b) then [BACKSLASH] + OctalTriple(b) else [b]
  }

  function QuoteBytes(s: Bytes): Bytes {
    if s == [] then [] else QuoteByte(s[0]) + QuoteBytes(s[1..])
  }

  function QuoteGitPath(s: Bytes): Bytes {
    if forall b :: b in s ==> !NeedsQuoting(b) then s else [QUOTE] + QuoteBytes(s) + [QUOTE]
  }

  method QuoteGitPathLoop(s: Bytes) returns (quoted: Bytes)
    ensures quoted == QuoteGitPath(s)
  {
    var needsQuoting := false;
    for i := 0 to |s|
      invariant !needsQuoting
      invariant forall k :: 0 <= k < i ==> !NeedsQuoting(s[k])
    {
      if s[i] == TAB || s[i] == NEWLINE || s[i] == 13 || s[i] == QUOTE || s[i] == BACKSLASH || !Printable(s[i]) {
        needsQuoting := true;
        assert s[i] in s && NeedsQuoting(s[i]);
        break;
      }
    }
    if !needsQuoting {
      return s;
    }
    quoted := [QUOTE];
    for i := 0 to |s|
      invariant quoted + QuoteBytes(s[i..]) == [QUOTE] + QuoteBytes(s)
    {
      ghost var before := quoted;
      assert s[i..][1..] == s[i + 1..];
      quoted := quoted + QuoteByte(s[i]);
      ConcatAssociates(before, QuoteByte(s[i]), QuoteBytes(s[i + 1..]));
    }
    assert quoted + [] == quoted;
    quoted := quoted + [QUOTE];
  }

  // ---------------------------------------------------------------- decoding

  predicate OctalDigit(b: byte) {
    48 <= b < 56
  }

  /** The byte that a two-character escape stands for. */
  function Unescape(letter: byte): Option<byte> {
    match letter
    case 97 => Some(7)
    case 98 => Some(8)
    case 116 => Some(9)
    case 110 => Some(10)
    case 118 => Some(11)
    case 102 => Some(12)
    case 114 => Some(13)
    case 34 => Some(QUOTE)
    case 92 => Some(BACKSLASH)
    case _ => None
  }

  /** The first byte that quoted text stands for, and how many characters spell it. */
  function DecodeOne(s: Bytes): (r: Option<(byte, nat)>)
    requires s != []
    ensures r.Some? ==> 0 < r.value.1 <= |s|
  {
    if s[0] != BACKSLASH then Some((s[0], 1))
    else if |s| < 2 then None
    else if Unescape(s[1]).Some? then Some((Unescape(s[1]).value, 2))
    else if |s| < 4 || !OctalDigit(s[1]) || !OctalDigit(s[2]) || !OctalDigit(s[3]) then None
    else
      var value := (s[1] as int - 48) * 64 + (s[2] as int - 48) * 8 + (s[3] as int - 48);
      if value < 256 then Some((value, 4)) else None
  }

  function DecodeBytes(s: Bytes): Option<Bytes> {
    if s == [] then Some([])
    else
      match DecodeOne(s)
      case None => None
      case Some((b, n)) =>
        match DecodeBytes(s[n..])
        case None => None
        case Some(rest) => Some([b] + rest)
  }

  /** A reader of the quoted form: plain text, or text between quotes with escapes. */
  function UnquoteGitPath(s: Bytes): Option<Bytes> {
    if |s| >= 2 && s[0] == QUOTE && s[|s| - 1] == QUOTE then DecodeBytes(s[1..|s| - 1])
    else Some(s)
  }

  lemma OctalTripleValue(b: byte)
    ensures var t := OctalTriple(b);
            (t[0] as int - 48) * 64 + (t[1] as int - 48) * 8 + (t[2] as int - 48) == b
    ensures forall d :: d in OctalTriple(b) ==> OctalDigit(d)
  {
    assert b / 8 == b / 64 * 8 + b / 8 % 8;
  }

  lemma DecodeQuotedByte(b: byte, rest: Bytes)
    ensures DecodeOne(QuoteByte(b) + rest) == Some((b, |QuoteByte(b)|))
    ensures (QuoteByte(b) + rest)[|QuoteByte(b)|..] == rest
  {
    var s := QuoteByte(b) + rest;
    assert forall i :: 0 <= i < |QuoteByte(b)| ==> s[i] == QuoteByte(b)[i];
    if EscapeLetter(b).None? && !Printable(b) {
      OctalTripleValue(b);
      var t := OctalTriple(b);
      assert s[1] == t[0] && s[2] == t[1] && s[3] == t[2];
    }
  }

  lemma {:induction false} DecodeUndoesQuote(s: Bytes)
    ensures DecodeBytes(QuoteBytes(s)) == Some(s)
  {
    if s != [] {
      DecodeQuotedByte(s[0], QuoteBytes(s[1..]));
      DecodeUndoesQuote(s[1..]);
      assert s == [s[0]] + s[1..];
    }
  }

  /** Every path can be recovered from its quoted form, whatever bytes it contains. */
  lemma UnquoteUndoesQuote(s: Bytes)
    ensures UnquoteGitPath(QuoteGitPath(s)) == Some(s)
  {
    var quoted := QuoteGitPath(s);
    if forall b :: b in s ==> !NeedsQuoting(b) {
      assert s != [] ==> s[0] in s;
    } else {
      assert quoted[1..|quoted| - 1] == QuoteBytes(s);
      DecodeUndoesQuote(s);
    }
  }

  /** Hence different paths get different unit ids. */
  lemma QuoteInjective(a: Bytes, b: Bytes)
    requires QuoteGitPath(a) == QuoteGitPath(b)
    ensures a == b
  {
    UnquoteUndoesQuote(a);
    UnquoteUndoesQuote(b);
  }

  lemma {:induction false} QuotedBytesArePrintable(s: Bytes)
    ensures forall b :: b in QuoteBytes(s) ==> Printable(b)
  {
    if s != [] {
      QuotedBytesArePrintable(s[1..]);
    }
  }

  /** Quoted paths are printable ASCII. */
  lemma QuotedPathIsPrintable(s: Bytes)
    ensures forall b :: b in QuoteGitPath(s) ==> Printable(b)
  {
    QuotedBytesArePrintable(s);
  }
}
