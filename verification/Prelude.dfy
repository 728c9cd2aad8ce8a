// Result types shared by the model, and the text operations of the Rust standard library
// that the provider relies on (`trim`, `split`, `split_once`, `strip_prefix`).

module Prelude {

  datatype Option<+T> = None | Some(value: T)

  /** A Rust `Result`; usable with Dafny's `:-`, which plays the role of `?`. */
  datatype Result<+T, +E> = Ok(value: T) | Err(error: E) {
    predicate IsFailure() {
      Err?
    }

    function PropagateFailure<U>(): Result<U, E>
      requires Err?
    {
      Err(error)
    }

    function Extract(): T
      requires Ok?
    {
      value
    }
  }

  type Byte = b: int | 0 <= b < 256
}

module Text {
  import opened Prelude

  /** The Unicode `White_Space` property, which Rust's `char::is_whitespace` tests. */
  predicate IsWhitespace(c: char) {
    || '\t' <= c <= '\r'
    || c == ' '
    || c == '\U{85}'
    || c == '\U{A0}'
    || c == '\U{1680}'
    || '\U{2000}' <= c <= '\U{200A}'
    || c == '\U{2028}'
    || c == '\U{2029}'
    || c == '\U{202F}'
    || c == '\U{205F}'
    || c == '\U{3000}'
  }

  /** The 25 code points of the property, one by one. */
  lemma WhitespaceExactly(c: char)
    ensures IsWhitespace(c) <==>
            c as int in {0x9, 0xA, 0xB, 0xC, 0xD, 0x20, 0x85, 0xA0, 0x1680,
                         0x2000, 0x2001, 0x2002, 0x2003, 0x2004, 0x2005, 0x2006, 0x2007, 0x2008, 0x2009, 0x200A,
                         0x2028, 0x2029, 0x202F, 0x205F, 0x3000}
  {
  }

  function TrimStartBy(p: char -> bool, s: string): string {
    if s != [] && p(s[0]) then TrimStartBy(p, s[1..]) else s
  }

  function TrimEndBy(p: char -> bool, s: string): string {
    if s != [] && p(s[|s| - 1]) then TrimEndBy(p, s[..|s| - 1]) else s
  }

  lemma SuffixOfRest(s: string, r: string)
    requires s != [] && |r| < |s| && r == s[1..][|s| - 1 - |r|..]
    ensures r == s[|s| - |r|..]
  {
  }

  lemma {:induction false} TrimStartExactly(p: char -> bool, s: string)
    ensures var r := TrimStartBy(p, s);
            && |r| <= |s| && r == s[|s| - |r|..]
            && (r != [] ==> !p(r[0]))
            && forall k :: 0 <= k < |s| - |r| ==> p(s[k])
  {
    if s != [] && p(s[0]) {
      var rest, r := s[1..], TrimStartBy(p, s);
      TrimStartExactly(p, rest);
      assert TrimStartBy(p, rest) == r;
      SuffixOfRest(s, r);
      forall k | 0 <= k < |s| - |r| ensures p(s[k]) {
        if k > 0 {
          assert s[k] == rest[k - 1];
        }
      }
    } else {
      assert s[0..] == s;
    }
  }

  lemma {:induction false} TrimEndExactly(p: char -> bool, s: string)
    ensures var r := TrimEndBy(p, s);
            && |r| <= |s| && r == s[..|r|]
            && (r != [] ==> !p(r[|r| - 1]))
            && forall k :: |r| <= k < |s| ==> p(s[k])
  {
    if s != [] && p(s[|s| - 1]) {
      TrimEndExactly(p, s[..|s| - 1]);
    }
  }

  function TrimBy(p: char -> bool, s: string): string {
    TrimEndBy(p, TrimStartBy(p, s))
  }

  /** `str::trim`. */
  function Trim(s: string): string {
    TrimBy(IsWhitespace, s)
  }

  /** `str::trim_end`. */
  function TrimEnd(s: string): string {
    TrimEndBy(IsWhitespace, s)
  }

  /** Trimming leaves nothing exactly when every character is to be trimmed. */
  lemma TrimEmptyIffBlank(p: char -> bool, s: string)
    ensures TrimBy(p, s) == [] <==> forall c :: c in s ==> p(c)
  {
    var t := TrimStartBy(p, s);
    TrimStartExactly(p, s);
    TrimEndExactly(p, t);
    if t != [] {
      assert t[0] in s;
    }
  }

  /** A string whose two end characters are kept is left alone. */
  lemma TrimKeeps(p: char -> bool, s: string)
    requires s != [] ==> !p(s[0]) && !p(s[|s| - 1])
    ensures TrimBy(p, s) == s
  {
  }

  /** Trimmed text has no white space at either end, so trimming again changes nothing. */
  lemma TrimIdempotent(p: char -> bool, s: string)
    ensures TrimBy(p, TrimBy(p, s)) == TrimBy(p, s)
    ensures var t := TrimBy(p, s); t != [] ==> !p(t[0]) && !p(t[|t| - 1])
  {
    var u := TrimStartBy(p, s);
    var t := TrimEndBy(p, u);
    TrimStartExactly(p, s);
    TrimEndExactly(p, u);
    if t != [] {
      assert t[0] == u[0];
    }
    TrimKeeps(p, t);
  }

  /** `str::split` on one character: always at least one piece. */
  function Split(s: string, sep: char): (r: seq<string>)
    ensures r != []
  {
    if s == [] then [[]]
    else
      var rest := Split(s[1..], sep);
      if s[0] == sep then [[]] + rest else [[s[0]] + rest[0]] + rest[1..]
  }

  function Join(pieces: seq<string>, sep: char): string
    requires pieces != []
  {
    if |pieces| == 1 then pieces[0] else pieces[0] + [sep] + Join(pieces[1..], sep)
  }

  lemma {:induction false} SplitWhole(s: string, sep: char)
    requires sep !in s
    ensures Split(s, sep) == [s]
  {
    if s != [] {
      assert s == [s[0]] + s[1..];
      SplitWhole(s[1..], sep);
    }
  }

  /** Splitting after joining separator-free pieces gives the pieces back. */
  lemma {:induction false} SplitJoin(pieces: seq<string>, sep: char)
    requires pieces != []
    requires forall p | p in pieces :: sep !in p
    ensures Split(Join(pieces, sep), sep) == pieces
  {
    if |pieces| == 1 {
      assert pieces == [pieces[0]];
      SplitWhole(pieces[0], sep);
    } else {
      SplitJoin(pieces[1..], sep);
      SplitAfterHead(pieces[0], sep, Join(pieces[1..], sep));
      assert pieces[0] + [sep] + Join(pieces[1..], sep) == pieces[0] + ([sep] + Join(pieces[1..], sep));
    }
  }

  lemma {:induction false} SplitAfterHead(head: string, sep: char, rest: string)
    requires sep !in head
    ensures Split(head + ([sep] + rest), sep) == [head] + Split(rest, sep)
  {
    var s := head + ([sep] + rest);
    if head == [] {
      assert s[1..] == rest;
    } else {
      assert s[1..] == head[1..] + ([sep] + rest);
      SplitAfterHead(head[1..], sep, rest);
      assert [s[0]] + head[1..] == head;
    }
  }

  /** Joining after splitting gives the text back. */
  lemma {:induction false} JoinSplit(s: string, sep: char)
    ensures Join(Split(s, sep), sep) == s
  {
    if s != [] {
      JoinSplit(s[1..], sep);
      var rest := Split(s[1..], sep);
      if s[0] == sep {
        assert ([[]] + rest)[1..] == rest;
      } else {
        var pieces := [[s[0]] + rest[0]] + rest[1..];
        assert pieces[1..] == rest[1..];
        assert Join(pieces, sep) == [s[0]] + Join(rest, sep);
      }
    }
  }

  /** `str::split_once` on one character: around the first occurrence. */
  function SplitOnce(s: string, sep: char): (r: Option<(string, string)>)
    ensures r.None? <==> sep !in s
    ensures r.Some? ==> sep !in r.value.0 && s == r.value.0 + [sep] + r.value.1
  {
    if s == [] then None
    else if s[0] == sep then Some(([], s[1..]))
    else
      match SplitOnce(s[1..], sep)
      case None => None
      case Some((a, b)) => Some(([s[0]] + a, b))
  }

  lemma {:induction false} SplitOnceAt(head: string, sep: char, rest: string)
    requires sep !in head
    ensures SplitOnce(head + [sep] + rest, sep) == Some((head, rest))
  {
    var s := head + [sep] + rest;
    if head == [] {
      assert s[1..] == rest;
    } else {
      assert s[1..] == head[1..] + [sep] + rest;
      SplitOnceAt(head[1..], sep, rest);
      assert [s[0]] + head[1..] == head;
    }
  }

  /** The text between two separators, or between one of them and an end. */
  ghost predicate IsPiece(s: string, sep: char, p: string) {
    exists a, b :: PieceBetween(s, sep, a, p, b)
  }

  predicate PieceBetween(s: string, sep: char, a: string, p: string, b: string) {
    s == a + p + b && sep !in p && (a == "" || a[|a| - 1] == sep) && (b == "" || b[0] == sep)
  }

  lemma PieceSeparators(s: string, sep: char, a: string, p: string, b: string)
    requires PieceBetween(s, sep, a, p, b)
    ensures a != "" || b != "" ==> sep in s
    ensures a == b == "" ==> p == s
  {
    if a != "" {
      assert s[|a| - 1] == sep;
    } else if b != "" {
      assert s[|p|] == sep;
    }
  }

  lemma WholeIsPiece(s: string, sep: char, p: string)
    requires sep !in s
    ensures IsPiece(s, sep, p) <==> p == s
  {
    forall a, b | PieceBetween(s, sep, a, p, b) ensures p == s {
      PieceSeparators(s, sep, a, p, b);
    }
    assert p == s ==> PieceBetween(s, sep, "", p, "");
  }

  lemma PieceOfSplit(s: string, sep: char, head: string, rest: string, p: string)
    requires s == head + ([sep] + rest) && sep !in head
    ensures IsPiece(s, sep, p) <==> p == head || IsPiece(rest, sep, p)
  {
    assert PieceBetween(s, sep, "", head, [sep] + rest);
    forall a, b | PieceBetween(rest, sep, a, p, b) ensures IsPiece(s, sep, p) {
      assert PieceBetween(s, sep, head + [sep] + a, p, b);
    }
    forall a, b | PieceBetween(s, sep, a, p, b) ensures p == head || IsPiece(rest, sep, p) {
      PieceAfter(s, sep, head, rest, a, p, b);
    }
  }

  lemma PieceAfter(s: string, sep: char, head: string, rest: string, a: string, p: string, b: string)
    requires s == head + ([sep] + rest) && sep !in head && PieceBetween(s, sep, a, p, b)
    ensures p == head || IsPiece(rest, sep, p)
  {
    assert s[|head|] == sep;
    if a != "" {
      assert s[|a| - 1] == sep;
      assert forall k | 0 <= k < |head| :: s[k] == head[k];
      assert rest == s[|head| + 1..];
      assert PieceBetween(rest, sep, a[|head| + 1..], p, b);
    } else if b != "" {
      assert s == p + [sep] + b[1..] && s == head + [sep] + rest;
      SplitOnceAt(p, sep, b[1..]);
      SplitOnceAt(head, sep, rest);
    }
  }

  /** What splitting yields, in terms of the text. */
  lemma {:induction false} SplitPieces(s: string, sep: char, p: string)
    ensures p in Split(s, sep) <==> IsPiece(s, sep, p)
    decreases |s|
  {
    if sep !in s {
      SplitWhole(s, sep);
      WholeIsPiece(s, sep, p);
    } else {
      var (head, rest) := SplitOnce(s, sep).value;
      assert s == head + ([sep] + rest);
      SplitAfterHead(head, sep, rest);
      PieceOfSplit(s, sep, head, rest, p);
      SplitPieces(rest, sep, p);
    }
  }

  predicate StartsWith(s: string, prefix: string) {
    prefix <= s
  }

  /** `str::strip_prefix`. */
  function StripPrefix(s: string, prefix: string): Option<string> {
    if prefix <= s then Some(s[|prefix|..]) else None
  }

  /** The length of a text in UTF-8 bytes, which `str::len` measures. */
  function Utf8Len(s: string): nat {
    if s == [] then 0
    else (if s[0] < '\U{80}' then 1 else if s[0] < '\U{800}' then 2 else if s[0] < '\U{10000}' then 3 else 4)
         + Utf8Len(s[1..])
  }

  /** The ranges of section 3 of RFC 3629: 7, 11, 16 or more bits take 1 to 4 bytes. */
  lemma Utf8LenOne(c: char)
    ensures var n := c as int; Utf8Len([c]) == if n <= 0x7F then 1 else if n <= 0x7FF then 2 else if n <= 0xFFFF then 3 else 4
  {
    assert [c][1..] == [];
  }

  lemma {:induction false} Utf8LenConcat(a: string, b: string)
    ensures Utf8Len(a + b) == Utf8Len(a) + Utf8Len(b)
  {
    if a == [] {
      assert a + b == b;
    } else {
      assert (a + b)[1..] == a[1..] + b;
      Utf8LenConcat(a[1..], b);
    }
  }

  // ---------- Decimal numerals ----------

  predicate IsDigit(c: char) {
    '0' <= c <= '9'
  }

  predicate AllDigits(s: string) {
    forall k | 0 <= k < |s| :: IsDigit(s[k])
  }

  function DecimalValue(s: string): nat
    requires AllDigits(s)
  {
    if s == "" then 0
    else
      assert IsDigit(s[|s| - 1]);
      10 * DecimalValue(s[..|s| - 1]) + (s[|s| - 1] as int - '0' as int)
  }

  predicate AllZeros(s: string) {
    forall k | 0 <= k < |s| :: s[k] == '0'
  }

  function Decimal(n: nat): (s: string)
    ensures s != "" && AllDigits(s)
  {
    var last := ('0' as int + n % 10) as char;
    if n < 10 then [last] else Decimal(n / 10) + [last]
  }

  lemma {:induction false} DecimalRoundTrip(n: nat)
    ensures DecimalValue(Decimal(n)) == n
  {
    if n >= 10 {
      var s := Decimal(n);
      assert s[..|s| - 1] == Decimal(n / 10);
      DecimalRoundTrip(n / 10);
    } else {
      assert Decimal(n)[..0] == "";
    }
  }
}
