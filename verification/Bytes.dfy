/** Byte strings, their lexicographic order, and strictly ascending sequences of them.

    A Rust `String`, `&str` or `Vec<u8>` is a `Bytes` value. A `BTreeSet<String>` is a strictly
    ascending `seq<Bytes>`, which is the order in which the program iterates over it. */
module ByteStrings {
  import opened Sorting

  type byte = x: int | 0 <= x < 256
  type Bytes = seq<byte>

  datatype Option<+T> = None | Some(value: T)

  datatype Result<+T, +E> = Ok(value: T) | Err(error: E)

  const U32_MAX: nat := 0xFFFF_FFFF
  const U64_MAX: nat := 0xFFFF_FFFF_FFFF_FFFF

  const NUL: byte := 0
  const TAB: byte := 9
  const NEWLINE: byte := 10
  const SPACE: byte := 32
  const PLUS: byte := 43
  const SLASH: byte := 47
  const BACKSLASH: byte := 92
  const UNDERSCORE: byte := 95

  /** An ASCII letter or digit, ".", "_" or "-". */
  predicate NameByte(b: int) {
    48 <= b <= 57 || 65 <= b <= 90 || 97 <= b <= 122 || b == 46 || b == 95 || b == 45
  }

  /** The bytes of an ASCII literal. */
  function Ascii(s: string): (r: Bytes)
    requires forall i :: 0 <= i < |s| ==> s[i] < 128 as char
    ensures |r| == |s|
    ensures forall i :: 0 <= i < |s| ==> r[i] == s[i] as int
  {
    seq(|s|, i requires 0 <= i < |s| => s[i] as int)
  }

  function Repeat(b: byte, n: nat): (r: Bytes)
    ensures |r| == n
    ensures forall i :: 0 <= i < n ==> r[i] == b
  {
    seq(n, _ => b)
  }

  lemma ConcatAssociates(a: Bytes, b: Bytes, c: Bytes)
    ensures (a + b) + c == a + (b + c)
  {
  }

  lemma TwoPieces(s: Bytes, i: nat)
    requires i <= |s|
    ensures s == s[..i] + s[i..]
  {
  }

  lemma SliceOfSlice(s: Bytes, lo: nat, hi: nat, a: nat, b: nat)
    requires lo <= hi <= |s| && a <= b <= hi - lo
    ensures s[lo..hi][a..b] == s[lo + a..lo + b]
  {
    forall k | 0 <= k < b - a
      ensures s[lo..hi][a..b][k] == s[lo + a..lo + b][k]
    {
      assert s[lo..hi][a + k] == s[lo + a + k];
    }
  }

  /** A digest without collisions. */
  ghost predicate Injective(hash: Bytes -> Bytes) {
    forall x, y :: hash(x) == hash(y) ==> x == y
  }

  // ---------------------------------------------------------------- order

  /** Strict lexicographic order, the order of Rust's `str`. */
  predicate Less(a: Bytes, b: Bytes) {
    b != [] && (a == [] || a[0] < b[0] || (a[0] == b[0] && Less(a[1..], b[1..])))
  }

  /** `k` is the first index at which the two differ or one of them ends. */
  ghost predicate FirstDifference(a: Bytes, b: Bytes, k: nat) {
    k <= |a| && k <= |b| && a[..k] == b[..k] && (k == |a| || k == |b| || a[k] != b[k])
  }

  /** The first difference decides the order: there the smaller string ends or has the smaller byte. */
  lemma {:induction false} LessExactly(a: Bytes, b: Bytes, k: nat)
    requires FirstDifference(a, b, k)
    ensures Less(a, b) <==> k < |b| && (k == |a| || a[k] < b[k])
  {
    if k > 0 {
      assert a[0] == a[..k][0] && b[0] == b[..k][0];
      assert a[1..][..k - 1] == a[..k][1..] && b[1..][..k - 1] == b[..k][1..];
      LessExactly(a[1..], b[1..], k - 1);
    }
  }

  lemma {:induction false} LessIrreflexive(a: Bytes)
    ensures !Less(a, a)
  {
    if a != [] {
      LessIrreflexive(a[1..]);
    }
  }

  lemma {:induction false} LessTransitive(a: Bytes, b: Bytes, c: Bytes)
    requires Less(a, b) && Less(b, c)
    ensures Less(a, c)
  {
    if a != [] && a[0] == b[0] && b[0] == c[0] {
      LessTransitive(a[1..], b[1..], c[1..]);
    }
  }

  lemma {:induction false} LessTotal(a: Bytes, b: Bytes)
    ensures Less(a, b) || a == b || Less(b, a)
  {
    if a != [] && b != [] && a[0] == b[0] {
      LessTotal(a[1..], b[1..]);
      assert a == [a[0]] + a[1..];
      assert b == [b[0]] + b[1..];
    }
  }

  // ---------------------------------------------------------------- ordered sets

  ghost predicate Ascending(s: seq<Bytes>) {
    forall i, j :: 0 <= i < j < |s| ==> Less(s[i], s[j])
  }

  lemma LessIsWeakOrder()
    ensures WeakOrder(Less)
  {
    forall a, b | Less(a, b)
      ensures !Less(b, a)
    {
      if Less(b, a) {
        LessTransitive(a, b, a);
        LessIrreflexive(a);
      }
    }
    forall a, b, c | Less(a, c)
      ensures Less(a, b) || Less(b, c)
    {
      LessTotal(a, b);
      if Less(b, a) {
        LessTransitive(b, a, c);
      }
    }
  }

  /** A set has one ascending listing. */
  lemma AscendingUnique(s: seq<Bytes>, t: seq<Bytes>)
    requires Ascending(s) && Ascending(t)
    requires forall x :: x in s <==> x in t
    ensures s == t
  {
    LessIsWeakOrder();
    Sorting.AscendingUnique(s, t, Less);
  }

  /** `BTreeSet::insert`. */
  function InsertKey(s: seq<Bytes>, x: Bytes): (r: seq<Bytes>)
    requires Ascending(s)
    ensures Ascending(r)
    ensures forall y :: y in r <==> y in s || y == x
  {
    if s == [] then [x]
    else if x == s[0] then s
    else if Less(x, s[0]) then
      assert forall i :: 0 <= i < |s| ==> Less(x, s[i]) by {
        forall i | 0 < i < |s|
          ensures Less(x, s[i])
        {
          LessTransitive(x, s[0], s[i]);
        }
      }
      [x] + s
    else
      LessTotal(x, s[0]);
      var rest := InsertKey(s[1..], x);
      assert forall i :: 0 <= i < |rest| ==> Less(s[0], rest[i]) by {
        forall i | 0 <= i < |rest|
          ensures Less(s[0], rest[i])
        {
          assert rest[i] in rest;
        }
      }
      assert s == [s[0]] + s[1..];
      [s[0]] + rest
  }

  // ---------------------------------------------------------------- splitting

  /** The first index of `b`, or the length when `b` does not occur. */
  function IndexOf(s: Bytes, b: byte): (i: nat)
    ensures i <= |s|
    ensures b !in s[..i]
    ensures i < |s| ==> s[i] == b
    ensures i == |s| <==> b !in s
  {
    if s == [] then 0
    else if s[0] == b then 0
    else
      assert s == [s[0]] + s[1..];
      var j := IndexOf(s[1..], b);
      assert s[..j + 1] == [s[0]] + s[1..][..j];
      j + 1
  }

  lemma {:induction false} IndexOfFirst(s: Bytes, b: byte, k: nat)
    requires k < |s| && s[k] == b && b !in s[..k]
    ensures IndexOf(s, b) == k
  {
    if k > 0 {
      assert s[0] == s[..k][0];
      assert s[1..][..k - 1] == s[..k][1..];
      IndexOfFirst(s[1..], b, k - 1);
    }
  }

  /** `split` on one separator byte: always at least one piece. */
  function Split(s: Bytes, sep: byte): (pieces: seq<Bytes>)
    ensures |pieces| > 0
    decreases |s|
  {
    var i := IndexOf(s, sep);
    if i == |s| then [s] else [s[..i]] + Split(s[i + 1..], sep)
  }

  lemma SplitPiece(a: Bytes, sep: byte, rest: Bytes)
    requires sep !in a
    ensures Split(a + [sep] + rest, sep) == [a] + Split(rest, sep)
  {
    var s := a + [sep] + rest;
    assert s[..|a|] == a;
    IndexOfFirst(s, sep, |a|);
    var i := |a|;
    assert s[..i] == a;
    assert s[i + 1..] == rest;
  }

  lemma CutAt(s: Bytes, k: nat, sep: byte)
    requires k < |s| && s[k] == sep
    ensures s == s[..k] + [sep] + s[k + 1..]
  {
  }

  lemma Regroup(x: Bytes, sep: byte, y: Bytes, b: Bytes)
    ensures (x + [sep] + y) + [sep] + b == x + [sep] + (y + [sep] + b)
  {
  }

  lemma OnePieceMore(x: Bytes, s: seq<Bytes>, t: seq<Bytes>)
    ensures [x] + (s + t) == ([x] + s) + t
  {
  }

  lemma SplitFirstPiece(s: Bytes, x: Bytes, sep: byte, rest: Bytes)
    requires sep !in x && s == x + [sep] + rest
    ensures Split(s, sep) == [x] + Split(rest, sep)
  {
    SplitPiece(x, sep, rest);
  }

  /** Splitting at one separator byte splits the pieces. */
  lemma {:induction false} SplitConcat(a: Bytes, sep: byte, b: Bytes)
    ensures Split(a + [sep] + b, sep) == Split(a, sep) + Split(b, sep)
    decreases |a|, 1
  {
    var k := IndexOf(a, sep);
    if k == |a| {
      SplitPiece(a, sep, b);
    } else {
      CutAt(a, k, sep);
      SplitBeyond(a, a[..k], sep, a[k + 1..], b);
    }
  }

  lemma {:induction false} SplitBeyond(a: Bytes, x: Bytes, sep: byte, y: Bytes, b: Bytes)
    requires sep !in x && a == x + [sep] + y
    ensures Split(a + [sep] + b, sep) == Split(a, sep) + Split(b, sep)
    decreases |x| + 1 + |y|, 0
  {
    Regroup(x, sep, y, b);
    SplitFirstPiece(a + [sep] + b, x, sep, y + [sep] + b);
    SplitFirstPiece(a, x, sep, y);
    SplitConcat(y, sep, b);
    OnePieceMore(x, Split(y, sep), Split(b, sep));
  }
}
