/** Git's NUL-delimited listings: `parse_name_status_z` and `parse_numstat_z` in
    `collect-diff-context-cli/src/app.rs`. */
module GitFormats {
  import opened ByteStrings
  import Utf8
  import HunkHeaders
  import Numerals

  const LETTER_R: byte := 82
  const LETTER_C: byte := 67

  /** " => " */
  const ARROW: Bytes := [32, 61, 62, 32]

  datatype NameStatusEntry = NameStatusEntry(status: Bytes, path: Bytes, oldPath: Option<Bytes>)

  datatype NumstatEntry =
    NumstatEntry(add: Bytes, del: Bytes, path: Bytes, oldPath: Option<Bytes>, pathSpec: Bytes)

  // ---------------------------------------------------------------- name-status

  /** A rename or a copy. */
  predicate Moves(status: Bytes) {
    status != [] && (status[0] == LETTER_R || status[0] == LETTER_C)
  }

  function MovedEntry(status: Bytes, source: Bytes, target: Bytes): NameStatusEntry {
    NameStatusEntry(Utf8.Lossy(status), Utf8.Lossy(target), Some(Utf8.Lossy(source)))
  }

  function PlainEntry(status: Bytes, path: Bytes): NameStatusEntry {
    NameStatusEntry(Utf8.Lossy(status), Utf8.Lossy(path), None)
  }

  function NameStatusFrom(parts: seq<Bytes>): seq<NameStatusEntry> {
    if parts == [] then []
    else if parts[0] == [] then NameStatusFrom(parts[1..])
    else if Moves(Utf8.Lossy(parts[0])) then
      if |parts| < 3 then []
      else [MovedEntry(parts[0], parts[1], parts[2])] + NameStatusFrom(parts[3..])
    else if |parts| < 2 then []
    else [PlainEntry(parts[0], parts[1])] + NameStatusFrom(parts[2..])
  }

  lemma Push<T>(front: seq<T>, x: T, rest: seq<T>)
    ensures front + ([x] + rest) == front + [x] + rest
  {
  }

  method ParseNameStatusZ(bytes: Bytes) returns (entries: seq<NameStatusEntry>)
    ensures entries == NameStatusFrom(Split(bytes, NUL))
  {
    entries := [];
    var parts := Split(bytes, NUL);
    ghost var expected := NameStatusFrom(parts);
    assert parts[0..] == parts;
    var n := 0;
    while n < |parts|
      invariant 0 <= n <= |parts|
      invariant expected == entries + NameStatusFrom(parts[n..])
    {
      ghost var left := parts[n..];
      var status := parts[n];
      assert left[1..] == parts[n + 1..];
      n := n + 1;
      if status == [] {
        continue;
      }
      if Moves(Utf8.Lossy(status)) {
        if n == |parts| {
          break;
        }
        var source := parts[n];
        n := n + 1;
        if n == |parts| {
          break;
        }
        var target := parts[n];
        n := n + 1;
        assert left[3..] == parts[n..];
        Push(entries, MovedEntry(status, source, target), NameStatusFrom(parts[n..]));
        entries := entries + [MovedEntry(status, source, target)];
      } else {
        if n == |parts| {
          break;
        }
        var path := parts[n];
        n := n + 1;
        assert left[2..] == parts[n..];
        Push(entries, PlainEntry(status, path), NameStatusFrom(parts[n..]));
        entries := entries + [PlainEntry(status, path)];
      }
    }
  }

  /** An entry that Git can list: no string contains NUL, the status is not empty, and exactly
      renames ("R") and copies ("C") name an old path. */
  ghost predicate Listed(e: NameStatusEntry) {
    && e.status != [] && NUL !in e.status && NUL !in e.path
    && (e.oldPath.Some? <==> e.status[0] == 82 || e.status[0] == 67)
    && (e.oldPath.Some? ==> NUL !in e.oldPath.value)
  }

  function NameStatusBytes(e: NameStatusEntry): Bytes {
    match e.oldPath
    case None => e.status + [NUL] + (e.path + [NUL])
    case Some(source) => e.status + [NUL] + (source + [NUL] + (e.path + [NUL]))
  }

  function RenderNameStatus(entries: seq<NameStatusEntry>): Bytes {
    if entries == [] then [] else NameStatusBytes(entries[0]) + RenderNameStatus(entries[1..])
  }

  /** What is left of an entry after its strings went through a Rust `String`. */
  function Decoded(e: NameStatusEntry): NameStatusEntry {
    NameStatusEntry(Utf8.Lossy(e.status), Utf8.Lossy(e.path),
                    if e.oldPath.Some? then Some(Utf8.Lossy(e.oldPath.value)) else None)
  }

  ghost predicate AllUtf8(e: NameStatusEntry) {
    Utf8.Valid(e.status) && Utf8.Valid(e.path) && (e.oldPath.Some? ==> Utf8.Valid(e.oldPath.value))
  }

  function DecodedAll(entries: seq<NameStatusEntry>): (r: seq<NameStatusEntry>)
    ensures |r| == |entries|
    ensures forall i :: 0 <= i < |entries| ==> r[i] == Decoded(entries[i])
  {
    seq(|entries|, i requires 0 <= i < |entries| => Decoded(entries[i]))
  }

  lemma DecodedAllCons(e: NameStatusEntry, tail: seq<NameStatusEntry>)
    ensures DecodedAll([e] + tail) == [Decoded(e)] + DecodedAll(tail)
  {
  }

  lemma LossyFirst(s: Bytes)
    ensures Moves(Utf8.Lossy(s)) <==> Moves(s)
  {
  }

  lemma FirstPiece(a: Bytes, more: Bytes, rest: Bytes)
    requires NUL !in a
    ensures Split(a + [NUL] + more + rest, NUL) == [a] + Split(more + rest, NUL)
  {
    ConcatAssociates(a + [NUL], more, rest);
    SplitPiece(a, NUL, more + rest);
  }

  lemma TwoPieces(a: Bytes, b: Bytes, rest: Bytes)
    requires NUL !in a && NUL !in b
    ensures Split(a + [NUL] + (b + [NUL]) + rest, NUL) == [a, b] + Split(rest, NUL)
  {
    FirstPiece(a, b + [NUL], rest);
    SplitPiece(b, NUL, rest);
    InFront(a, [b], Split(rest, NUL));
  }

  lemma InFront(x: Bytes, front: seq<Bytes>, rest: seq<Bytes>)
    ensures [x] + (front + rest) == [x] + front + rest
  {
  }

  lemma ThreePieces(a: Bytes, b: Bytes, c: Bytes, rest: Bytes)
    requires NUL !in a && NUL !in b && NUL !in c
    ensures Split(a + [NUL] + (b + [NUL] + (c + [NUL])) + rest, NUL) == [a, b, c] + Split(rest, NUL)
  {
    FirstPiece(a, b + [NUL] + (c + [NUL]), rest);
    TwoPieces(b, c, rest);
    InFront(a, [b, c], Split(rest, NUL));
  }

  lemma NameStatusStep(e: NameStatusEntry, rest: Bytes)
    requires Listed(e)
    ensures NameStatusFrom(Split(NameStatusBytes(e) + rest, NUL)) == [Decoded(e)] + NameStatusFrom(Split(rest, NUL))
  {
    LossyFirst(e.status);
    var more := Split(rest, NUL);
    match e.oldPath
    case None =>
      TwoPieces(e.status, e.path, rest);
      assert ([e.status, e.path] + more)[2..] == more;
    case Some(source) =>
      ThreePieces(e.status, source, e.path, rest);
      assert ([e.status, source, e.path] + more)[3..] == more;
  }

  /** Parsing undoes rendering, up to the decoding of each string, for every list of plain, renamed
      and copied entries. */
  lemma {:induction false} NameStatusRoundTrip(entries: seq<NameStatusEntry>)
    requires forall e :: e in entries ==> Listed(e)
    ensures NameStatusFrom(Split(RenderNameStatus(entries), NUL)) == DecodedAll(entries)
  {
    if entries == [] {
      var nothing: seq<Bytes> := [[]];
      assert Split([], NUL) == nothing && nothing[1..] == [];
    } else {
      var e, tail := entries[0], entries[1..];
      assert entries == [e] + tail;
      NameStatusStep(e, RenderNameStatus(tail));
      NameStatusRoundTrip(tail);
      DecodedAllCons(e, tail);
    }
  }

  /** What follows a list of entries is read as it would be alone. */
  lemma {:induction false} NameStatusTail(entries: seq<NameStatusEntry>, tail: Bytes)
    requires forall e :: e in entries ==> Listed(e)
    ensures NameStatusFrom(Split(RenderNameStatus(entries) + tail, NUL))
         == DecodedAll(entries) + NameStatusFrom(Split(tail, NUL))
  {
    if entries == [] {
      assert [] + tail == tail;
    } else {
      var e, rest := entries[0], entries[1..];
      assert entries == [e] + rest;
      NameStatusTail(rest, tail);
      OneEntryMore(e, rest, tail);
    }
  }

  lemma Regrouped<T>(x: T, s: seq<T>, t: seq<T>)
    ensures [x] + (s + t) == [x] + s + t
  {
  }

  lemma OneEntryMore(e: NameStatusEntry, rest: seq<NameStatusEntry>, tail: Bytes)
    requires Listed(e)
    requires NameStatusFrom(Split(RenderNameStatus(rest) + tail, NUL))
          == DecodedAll(rest) + NameStatusFrom(Split(tail, NUL))
    ensures NameStatusFrom(Split(NameStatusBytes(e) + RenderNameStatus(rest) + tail, NUL))
         == DecodedAll([e] + rest) + NameStatusFrom(Split(tail, NUL))
  {
    ConcatAssociates(NameStatusBytes(e), RenderNameStatus(rest), tail);
    NameStatusStep(e, RenderNameStatus(rest) + tail);
    DecodedAllCons(e, rest);
    Regrouped(Decoded(e), DecodedAll(rest), NameStatusFrom(Split(tail, NUL)));
  }

  /** An empty piece in place of a status is skipped. */
  lemma EmptyStatusIsSkipped(rest: seq<Bytes>)
    ensures NameStatusFrom([[]] + rest) == NameStatusFrom(rest)
  {
    var parts: seq<Bytes> := [[]] + rest;
    assert parts[0] == [] && parts[1..] == rest;
  }

  lemma OnePiece(s: Bytes)
    requires NUL !in s
    ensures Split(s, NUL) == [s]
  {
    assert IndexOf(s, NUL) == |s|;
  }

  /** A listing that breaks off in a status, or in the old path of a move, ends with the entry before. */
  lemma BrokenOffEntryIsDropped(entries: seq<NameStatusEntry>, status: Bytes, source: Bytes)
    requires (forall e :: e in entries ==> Listed(e)) && NUL !in status && NUL !in source
    ensures NameStatusFrom(Split(RenderNameStatus(entries) + status, NUL)) == DecodedAll(entries)
    ensures status != [] && (status[0] == 82 || status[0] == 67) ==>
              NameStatusFrom(Split(RenderNameStatus(entries) + (status + [NUL] + source), NUL)) == DecodedAll(entries)
  {
    NameStatusTail(entries, status);
    NameStatusTail(entries, status + [NUL] + source);
    OnePiece(status);
    OnePiece(source);
    SplitPiece(status, NUL, source);
    var one: seq<Bytes>, two: seq<Bytes> := [status], [status, source];
    assert one[1..] == [] && NameStatusFrom([]) == [];
    LossyFirst(status);
    assert NameStatusFrom(one) == [];
    assert status != [] && (status[0] == 82 || status[0] == 67) ==> NameStatusFrom(two) == [];
  }

  lemma DecodedIsExact(e: NameStatusEntry)
    ensures Decoded(e) == e <==> AllUtf8(e)
  {
    Utf8.LossyIdentity(e.status);
    Utf8.LossyIdentity(e.path);
    if e.oldPath.Some? {
      Utf8.LossyIdentity(e.oldPath.value);
    }
  }

  /** The entries come back unchanged exactly when all their strings are UTF-8. */
  lemma NameStatusExact(entries: seq<NameStatusEntry>)
    requires forall e :: e in entries ==> Listed(e)
    ensures NameStatusFrom(Split(RenderNameStatus(entries), NUL)) == entries
            <==> forall e :: e in entries ==> AllUtf8(e)
  {
    NameStatusRoundTrip(entries);
    forall e | e in entries
      ensures Decoded(e) == e <==> AllUtf8(e)
    {
      DecodedIsExact(e);
    }
    if DecodedAll(entries) == entries {
      forall e | e in entries
        ensures AllUtf8(e)
      {
        var i :| 0 <= i < |entries| && entries[i] == e;
        assert DecodedAll(entries)[i] == Decoded(e);
      }
    }
  }

  /** Two files whose names are not UTF-8 can be listed under the same path. */
  lemma UndecodablePathsCollide()
    ensures var m: Bytes := [77];
            var one, two := NameStatusEntry(m, [0xFF], None), NameStatusEntry(m, [0xFE], None);
            && Listed(one) && Listed(two) && one != two
            && NameStatusFrom(Split(RenderNameStatus([one]), NUL))
               == NameStatusFrom(Split(RenderNameStatus([two]), NUL))
  {
    var m: Bytes := [77];
    var one, two := NameStatusEntry(m, [0xFF], None), NameStatusEntry(m, [0xFE], None);
    NameStatusRoundTrip([one]);
    NameStatusRoundTrip([two]);
    assert Utf8.Lossy([0xFF]) == Utf8.REPLACEMENT + Utf8.Lossy([]) == Utf8.Lossy([0xFE]);
    assert Decoded(one) == Decoded(two);
    assert DecodedAll([one]) == [Decoded(one)] == DecodedAll([two]);
  }

  // ---------------------------------------------------------------- numstat

  function TrimStart(s: Bytes): (r: Bytes)
    requires Utf8.Valid(s)
    ensures Utf8.Valid(r)
  {
    if s != [] && HunkHeaders.IsWhitespace(Utf8.CodePoint(s)) then TrimStart(s[Utf8.CharLen(s)..]) else s
  }

  predicate Blank(s: Bytes)
    requires Utf8.Valid(s)
  {
    s == [] || (HunkHeaders.IsWhitespace(Utf8.CodePoint(s)) && Blank(s[Utf8.CharLen(s)..]))
  }

  function TrimEnd(s: Bytes): Bytes
    requires Utf8.Valid(s)
  {
    if Blank(s) then [] else s[..Utf8.CharLen(s)] + TrimEnd(s[Utf8.CharLen(s)..])
  }

  /** A count as the program keeps it: decoded, without white space at either end. */
  function CountText(s: Bytes): Bytes {
    Utf8.LossyIsValid(s);
    TrimEnd(TrimStart(Utf8.Lossy(s)))
  }

  function MovedNumstat(add: Bytes, del: Bytes, source: Bytes, target: Bytes): NumstatEntry {
    var from, to := Utf8.Lossy(source), Utf8.Lossy(target);
    NumstatEntry(CountText(add), CountText(del), to, Some(from), from + ARROW + to)
  }

  function PlainNumstat(add: Bytes, del: Bytes, path: Bytes): NumstatEntry {
    NumstatEntry(CountText(add), CountText(del), Utf8.Lossy(path), None, Utf8.Lossy(path))
  }

  function NumstatFrom(parts: seq<Bytes>): seq<NumstatEntry> {
    if parts == [] then []
    else
      var line := parts[0];
      var firstTab := IndexOf(line, TAB);
      if firstTab == |line| then NumstatFrom(parts[1..])
      else
        var rest := line[firstTab + 1..];
        var secondTab := IndexOf(rest, TAB);
        if secondTab == |rest| then NumstatFrom(parts[1..])
        else if secondTab + 1 == |rest| then
          if |parts| < 3 then []
          else [MovedNumstat(line[..firstTab], rest[..secondTab], parts[1], parts[2])] + NumstatFrom(parts[3..])
        else [PlainNumstat(line[..firstTab], rest[..secondTab], rest[secondTab + 1..])] + NumstatFrom(parts[1..])
  }

  method ParseNumstatZ(bytes: Bytes) returns (entries: seq<NumstatEntry>)
    ensures entries == NumstatFrom(Split(bytes, NUL))
  {
    entries := [];
    var parts := Split(bytes, NUL);
    ghost var expected := NumstatFrom(parts);
    assert parts[0..] == parts;
    var n := 0;
    while n < |parts|
      invariant 0 <= n <= |parts|
      invariant expected == entries + NumstatFrom(parts[n..])
    {
      ghost var left := parts[n..];
      var line := parts[n];
      assert left[1..] == parts[n + 1..];
      n := n + 1;
      var firstTab := IndexOf(line, TAB);
      if firstTab == |line| {
        continue;
      }
      var add, rest := line[..firstTab], line[firstTab + 1..];
      var secondTab := IndexOf(rest, TAB);
      if secondTab == |rest| {
        continue;
      }
      var del, path := rest[..secondTab], rest[secondTab + 1..];
      if path == [] {
        if n == |parts| {
          break;
        }
        var source := parts[n];
        n := n + 1;
        if n == |parts| {
          break;
        }
        var target := parts[n];
        n := n + 1;
        assert left[3..] == parts[n..];
        Push(entries, MovedNumstat(add, del, source, target), NumstatFrom(parts[n..]));
        entries := entries + [MovedNumstat(add, del, source, target)];
      } else {
        Push(entries, PlainNumstat(add, del, path), NumstatFrom(parts[n..]));
        entries := entries + [PlainNumstat(add, del, path)];
      }
    }
  }

  /** A number of lines, or "-" for a binary file. */
  ghost predicate IsCount(s: Bytes) {
    s == [HunkHeaders.MINUS] || exists n: nat :: s == Numerals.Decimal(n)
  }

  ghost predicate Counted(e: NumstatEntry) {
    && IsCount(e.add) && IsCount(e.del) && NUL !in e.path
    && match e.oldPath
       case None => e.path != [] && e.pathSpec == e.path
       case Some(source) => NUL !in source && e.pathSpec == source + ARROW + e.path
  }

  function CountsBytes(e: NumstatEntry): Bytes {
    e.add + [TAB] + (e.del + [TAB])
  }

  function NumstatBytes(e: NumstatEntry): Bytes {
    match e.oldPath
    case None => CountsBytes(e) + e.path + [NUL]
    case Some(source) => CountsBytes(e) + [NUL] + (source + [NUL] + (e.path + [NUL]))
  }

  function RenderNumstat(entries: seq<NumstatEntry>): Bytes {
    if entries == [] then [] else NumstatBytes(entries[0]) + RenderNumstat(entries[1..])
  }

  function DecodedNumstat(e: NumstatEntry): NumstatEntry {
    match e.oldPath
    case None => NumstatEntry(e.add, e.del, Utf8.Lossy(e.path), None, Utf8.Lossy(e.path))
    case Some(source) =>
      NumstatEntry(e.add, e.del, Utf8.Lossy(e.path), Some(Utf8.Lossy(source)),
                   Utf8.Lossy(source) + ARROW + Utf8.Lossy(e.path))
  }

  function DecodedNumstats(entries: seq<NumstatEntry>): (r: seq<NumstatEntry>)
    ensures |r| == |entries|
    ensures forall i :: 0 <= i < |entries| ==> r[i] == DecodedNumstat(entries[i])
  {
    seq(|entries|, i requires 0 <= i < |entries| => DecodedNumstat(entries[i]))
  }

  lemma DecodedNumstatsCons(e: NumstatEntry, tail: seq<NumstatEntry>)
    ensures DecodedNumstats([e] + tail) == [DecodedNumstat(e)] + DecodedNumstats(tail)
  {
  }

  lemma {:induction false} NoWhitespaceToTrim(s: Bytes)
    requires forall i :: 0 <= i < |s| ==> 0x20 < s[i] < 0x80
    ensures Utf8.Valid(s) && TrimStart(s) == s && TrimEnd(s) == s
  {
    Utf8.AsciiChars(s);
    if s != [] {
      NoWhitespaceToTrim(s[1..]);
      assert s == [s[0]] + s[1..];
    }
  }

  lemma {:induction false} BlankText(blanks: Bytes)
    requires forall i :: 0 <= i < |blanks| ==> blanks[i] == 32 || blanks[i] == 9
    ensures Utf8.Valid(blanks) && Blank(blanks)
  {
    if blanks != [] {
      BlankText(blanks[1..]);
    }
  }

  lemma TrimEndStep(b: byte, rest: Bytes)
    requires 0x20 < b < 0x80 && Utf8.Valid(rest)
    ensures Utf8.Valid([b] + rest) && TrimEnd([b] + rest) == [b] + TrimEnd(rest)
  {
    var s := [b] + rest;
    assert Utf8.CharLen(s) == 1 && s[1..] == rest && s[..1] == [b];
  }

  lemma FirstInFront(s: Bytes, t: Bytes)
    requires s != []
    ensures s + t == [s[0]] + (s[1..] + t) && s == [s[0]] + s[1..]
  {
  }

  lemma {:induction false} BlanksAreTrimmed(s: Bytes, blanks: Bytes)
    requires forall i :: 0 <= i < |blanks| ==> blanks[i] == 32 || blanks[i] == 9
    requires forall i :: 0 <= i < |s| ==> 0x20 < s[i] < 0x80
    ensures Utf8.Valid(s + blanks) && TrimEnd(s + blanks) == s
  {
    if s == [] {
      BlankText(blanks);
      assert s + blanks == blanks;
    } else {
      BlanksAreTrimmed(s[1..], blanks);
      TrimEndStep(s[0], s[1..] + blanks);
      FirstInFront(s, blanks);
    }
  }

  lemma {:induction false} LeadingBlanks(blanks: Bytes, s: Bytes)
    requires forall i :: 0 <= i < |blanks| ==> blanks[i] == 32 || blanks[i] == 9
    requires s != [] && 0x20 < s[0] < 0x80 && Utf8.Valid(s)
    ensures Utf8.Valid(blanks + s) && TrimStart(blanks + s) == s
  {
    if blanks == [] {
      assert blanks + s == s;
    } else {
      assert (blanks + s)[1..] == blanks[1..] + s;
      LeadingBlanks(blanks[1..], s);
    }
  }

  /** Blanks around a count are dropped. */
  lemma CountIsTrimmed(before: Bytes, count: Bytes, after: Bytes)
    requires forall i :: 0 <= i < |before| ==> before[i] == 32 || before[i] == 9
    requires forall i :: 0 <= i < |after| ==> after[i] == 32 || after[i] == 9
    requires IsCount(count)
    ensures CountText(before + (count + after)) == count
  {
    BlanksAreTrimmed(count, after);
    LeadingBlanks(before, count + after);
    Utf8.LossyIdentity(before + (count + after));
  }

  lemma CountSurvives(s: Bytes)
    requires IsCount(s)
    ensures CountText(s) == s && TAB !in s && NUL !in s
  {
    NoWhitespaceToTrim(s);
    Utf8.LossyIdentity(s);
  }

  /** The two tabs that end the counts are found whatever follows them. */
  lemma TabsFound(add: Bytes, del: Bytes, path: Bytes)
    requires TAB !in add && TAB !in del
    ensures var line := add + [TAB] + (del + [TAB]) + path;
            && IndexOf(line, TAB) == |add| && line[..|add|] == add
            && |line| > |add| + |del| + 1
            && var rest := line[|add| + 1..];
               IndexOf(rest, TAB) == |del| && rest[..|del|] == del && rest[|del| + 1..] == path
  {
    var line := add + [TAB] + (del + [TAB]) + path;
    assert line[..|add|] == add;
    IndexOfFirst(line, TAB, |add|);
    var rest := line[|add| + 1..];
    assert rest == del + [TAB] + path;
    assert rest[..|del|] == del;
    IndexOfFirst(rest, TAB, |del|);
  }

  lemma PlainNumstatStep(e: NumstatEntry, rest: Bytes)
    requires Counted(e) && e.oldPath.None?
    ensures NumstatFrom(Split(NumstatBytes(e) + rest, NUL)) == [DecodedNumstat(e)] + NumstatFrom(Split(rest, NUL))
  {
    CountSurvives(e.add);
    CountSurvives(e.del);
    var line := CountsBytes(e) + e.path;
    assert NumstatBytes(e) + rest == line + [NUL] + rest;
    SplitPiece(line, NUL, rest);
    TabsFound(e.add, e.del, e.path);
    assert ([line] + Split(rest, NUL))[1..] == Split(rest, NUL);
  }

  lemma MovedNumstatStep(e: NumstatEntry, rest: Bytes)
    requires Counted(e) && e.oldPath.Some?
    ensures NumstatFrom(Split(NumstatBytes(e) + rest, NUL)) == [DecodedNumstat(e)] + NumstatFrom(Split(rest, NUL))
  {
    CountSurvives(e.add);
    CountSurvives(e.del);
    var line, source := CountsBytes(e), e.oldPath.value;
    ThreePieces(line, source, e.path, rest);
    ReadMoved(e.add, e.del, line, source, e.path, Split(rest, NUL));
  }

  lemma ReadMoved(add: Bytes, del: Bytes, line: Bytes, source: Bytes, target: Bytes, more: seq<Bytes>)
    requires TAB !in add && TAB !in del && line == add + [TAB] + (del + [TAB])
    ensures NumstatFrom([line, source, target] + more) == [MovedNumstat(add, del, source, target)] + NumstatFrom(more)
  {
    TabsFound(add, del, []);
    assert line == line + [];
    assert ([line, source, target] + more)[3..] == more;
  }

  /** Parsing undoes rendering, up to the decoding of each path, for every list of plain and moved
      files; paths may contain tabs and newlines. */
  lemma {:induction false} NumstatRoundTrip(entries: seq<NumstatEntry>)
    requires forall e :: e in entries ==> Counted(e)
    ensures NumstatFrom(Split(RenderNumstat(entries), NUL)) == DecodedNumstats(entries)
  {
    if entries == [] {
      var nothing: seq<Bytes> := [[]];
      assert Split([], NUL) == nothing && nothing[1..] == [];
    } else {
      var e, tail := entries[0], entries[1..];
      assert entries == [e] + tail;
      if e.oldPath.None? {
        PlainNumstatStep(e, RenderNumstat(tail));
      } else {
        MovedNumstatStep(e, RenderNumstat(tail));
      }
      NumstatRoundTrip(tail);
      DecodedNumstatsCons(e, tail);
    }
  }

  /** A piece without two tabs is no entry, and an entry that breaks off before its second path is dropped. */
  lemma OtherPiecesAreSkipped(piece: Bytes, add: Bytes, del: Bytes, source: Bytes, rest: seq<Bytes>)
    ensures TAB !in piece ==> NumstatFrom([piece] + rest) == NumstatFrom(rest)
    ensures TAB !in add && TAB !in del ==> NumstatFrom([add + [TAB] + del] + rest) == NumstatFrom(rest)
    ensures TAB !in add && TAB !in del ==>
              && NumstatFrom([add + [TAB] + (del + [TAB])]) == []
              && NumstatFrom([add + [TAB] + (del + [TAB]), source]) == []
  {
    assert ([piece] + rest)[1..] == rest;
    if TAB !in add && TAB !in del {
      var line := add + [TAB] + del;
      assert line[..|add|] == add;
      IndexOfFirst(line, TAB, |add|);
      assert line[|add| + 1..] == del;
      assert ([line] + rest)[1..] == rest;
      TabsFound(add, del, []);
      assert add + [TAB] + (del + [TAB]) + [] == add + [TAB] + (del + [TAB]);
    }
  }

  ghost predicate PathsUtf8(e: NumstatEntry) {
    Utf8.Valid(e.path) && (e.oldPath.Some? ==> Utf8.Valid(e.oldPath.value))
  }

  lemma DecodedNumstatIsExact(e: NumstatEntry)
    requires Counted(e)
    ensures DecodedNumstat(e) == e <==> PathsUtf8(e)
  {
    Utf8.LossyIdentity(e.path);
    if e.oldPath.Some? {
      Utf8.LossyIdentity(e.oldPath.value);
    }
  }

  lemma NumstatExact(entries: seq<NumstatEntry>)
    requires forall e :: e in entries ==> Counted(e)
    ensures NumstatFrom(Split(RenderNumstat(entries), NUL)) == entries <==> forall e :: e in entries ==> PathsUtf8(e)
  {
    NumstatRoundTrip(entries);
    forall e | e in entries
      ensures DecodedNumstat(e) == e <==> PathsUtf8(e)
    {
      DecodedNumstatIsExact(e);
    }
    if DecodedNumstats(entries) == entries {
      forall e | e in entries
        ensures PathsUtf8(e)
      {
        var i :| 0 <= i < |entries| && entries[i] == e;
        assert DecodedNumstats(entries)[i] == DecodedNumstat(e);
      }
    }
  }
}
