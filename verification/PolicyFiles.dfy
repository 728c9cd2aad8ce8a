// The policy-file grammar, as the provider parses it and as the Ruby coverage checker does,
// and the exact set of files on which the two agree.

module PolicyFiles {
  import opened Prelude
  import opened Text

  /** Reading a file: it fails, or yields valid UTF-8 text. */
  datatype FileRead = Unreadable | Contents(text: string)

  datatype PolicyError = CannotRead | TooLarge | BlankEntry | NoEntries | NotConfigured | ConflictingModes

  const MAX_POLICY_FILE_BYTES := 4 * 1024 * 1024

  /** The pieces that are not blank after `trim`, trimmed. */
  function Kept(trim: string -> string, pieces: seq<string>): seq<string> {
    if pieces == [] then []
    else (if trim(pieces[0]) == "" then [] else [trim(pieces[0])]) + Kept(trim, pieces[1..])
  }

  /** The trimmed comma-separated pieces of a line that are not blank. */
  function Pieces(trim: string -> string, line: string): seq<string> {
    Kept(trim, Split(line, ','))
  }

  predicate HashLed(s: string) {
    s != "" && s[0] == '#'
  }

  // ---------- The provider's parser ----------

  function RustLine(line: string): seq<string> {
    var t := Trim(line);
    if t == "" || HashLed(t) then [] else Pieces(Trim, t)
  }

  function DropReturn(line: string): string {
    if line != "" && line[|line| - 1] == '\r' then line[..|line| - 1] else line
  }

  /** `str::lines`: the terminated lines without `\n` or `\r\n`, and an unterminated last line. */
  function RustLines(pieces: seq<string>): seq<string> {
    if pieces == [] then []
    else if |pieces| == 1 then (if pieces[0] == "" then [] else pieces)
    else [DropReturn(pieces[0])] + RustLines(pieces[1..])
  }

  function RustAll(lines: seq<string>): seq<string> {
    if lines == [] then [] else RustLine(lines[0]) + RustAll(lines[1..])
  }

  function RustEntries(text: string): seq<string> {
    RustAll(RustLines(Split(text, '\n')))
  }

  function ReadPolicyFileOf(file: FileRead): Result<seq<string>, PolicyError> {
    match file
    case Unreadable => Err(CannotRead)
    case Contents(text) => if Utf8Len(text) > MAX_POLICY_FILE_BYTES then Err(TooLarge) else Ok(RustEntries(text))
  }

  lemma {:induction false} RustAllSnoc(lines: seq<string>, line: string)
    ensures RustAll(lines + [line]) == RustAll(lines) + RustLine(line)
  {
    if lines == [] {
      assert lines + [line] == [line];
      assert [line][1..] == [];
    } else {
      assert (lines + [line])[0] == lines[0] && (lines + [line])[1..] == lines[1..] + [line];
      RustAllSnoc(lines[1..], line);
    }
  }

  lemma {:induction false} KeptSnoc(trim: string -> string, pieces: seq<string>, piece: string)
    ensures Kept(trim, pieces + [piece]) ==
            Kept(trim, pieces) + if trim(piece) == "" then [] else [trim(piece)]
  {
    if pieces == [] {
      assert pieces + [piece] == [piece];
      assert [piece][1..] == [];
    } else {
      assert (pieces + [piece])[0] == pieces[0] && (pieces + [piece])[1..] == pieces[1..] + [piece];
      KeptSnoc(trim, pieces[1..], piece);
    }
  }

  lemma RustStep(lines: seq<string>, i: nat)
    requires i < |lines|
    ensures RustAll(lines[..i + 1]) == RustAll(lines[..i]) + RustLine(lines[i])
  {
    assert lines[..i + 1] == lines[..i] + [lines[i]];
    RustAllSnoc(lines[..i], lines[i]);
  }

  lemma KeptStep(trim: string -> string, pieces: seq<string>, j: nat)
    requires j < |pieces|
    ensures Kept(trim, pieces[..j + 1]) ==
            Kept(trim, pieces[..j]) + if trim(pieces[j]) == "" then [] else [trim(pieces[j])]
  {
    assert pieces[..j + 1] == pieces[..j] + [pieces[j]];
    KeptSnoc(trim, pieces[..j], pieces[j]);
  }

  lemma WholeSlice<T>(s: seq<T>)
    ensures s[..|s|] == s
  {
  }

  /** The inner loop of `read_policy_file`, over the pieces of one line. */
  method PushPieces(entries: seq<string>, pieces: seq<string>) returns (r: seq<string>)
    ensures r == entries + Kept(Trim, pieces)
  {
    r := entries;
    for j := 0 to |pieces|
      invariant r == entries + Kept(Trim, pieces[..j])
    {
      KeptStep(Trim, pieces, j);
      var entry := Trim(pieces[j]);
      if entry == "" {
        continue;
      }
      r := r + [entry];
    }
    WholeSlice(pieces);
  }

  /** `read_policy_file`: the loop over the lines. */
  method ReadPolicyFile(file: FileRead) returns (r: Result<seq<string>, PolicyError>)
    ensures r == ReadPolicyFileOf(file)
  {
    if file.Unreadable? {
      return Err(CannotRead);
    }
    if Utf8Len(file.text) > MAX_POLICY_FILE_BYTES {
      return Err(TooLarge);
    }
    var entries: seq<string> := [];
    var lines := RustLines(Split(file.text, '\n'));
    for i := 0 to |lines|
      invariant entries == RustAll(lines[..i])
    {
      RustStep(lines, i);
      var line := Trim(lines[i]);
      if line == "" || HashLed(line) {
        continue;
      }
      entries := PushPieces(entries, Split(line, ','));
    }
    WholeSlice(lines);
    return Ok(entries);
  }

  // ---------- The checker's parser ----------

  /** What Ruby's `String#strip` removes: NUL and ASCII white space. */
  predicate IsRubySpace(c: char) {
    c == '\0' || c == ' ' || '\t' <= c <= '\r'
  }

  lemma RubySpaceExactly(c: char)
    ensures IsRubySpace(c) <==> c as int in {0x0, 0x9, 0xA, 0xB, 0xC, 0xD, 0x20}
  {
  }

  /** `String#strip`. */
  function RubyStrip(s: string): string {
    TrimBy(IsRubySpace, s)
  }

  function DropTrailingEmpty(pieces: seq<string>): seq<string> {
    if pieces != [] && pieces[|pieces| - 1] == "" then DropTrailingEmpty(pieces[..|pieces| - 1]) else pieces
  }

  function Unhashed(entries: seq<string>): seq<string> {
    if entries == [] then []
    else (if HashLed(entries[0]) then [] else [entries[0]]) + Unhashed(entries[1..])
  }

  function RubyLine(line: string): seq<string> {
    Unhashed(Kept(RubyStrip, DropTrailingEmpty(Split(line, ','))))
  }

  /** `String#lines`: each terminated line with its `\n`, and an unterminated last line. */
  function RubyLines(pieces: seq<string>): seq<string> {
    if pieces == [] then []
    else if |pieces| == 1 then (if pieces[0] == "" then [] else pieces)
    else [pieces[0] + "\n"] + RubyLines(pieces[1..])
  }

  function RubyAll(lines: seq<string>): seq<string> {
    if lines == [] then [] else RubyLine(lines[0]) + RubyAll(lines[1..])
  }

  /** `parse_policy_entries`. */
  function RubyEntries(text: string): seq<string> {
    RubyAll(RubyLines(Split(text, '\n')))
  }

  // ---------- Trimming a line does not change its pieces ----------

  lemma TrimConsBlank(p: char -> bool, c: char, s: string)
    requires p(c)
    ensures TrimBy(p, [c] + s) == TrimBy(p, s)
  {
    assert ([c] + s)[1..] == s;
  }

  lemma {:induction false} TrimSnocBlank(p: char -> bool, s: string, c: char)
    requires p(c)
    ensures TrimBy(p, s + [c]) == TrimBy(p, s)
    decreases |s|
  {
    if s == "" {
      assert s + [c] == [c];
      assert [c][1..] == "";
    } else if p(s[0]) {
      assert (s + [c])[1..] == s[1..] + [c];
      TrimSnocBlank(p, s[1..], c);
    } else {
      assert (s + [c])[0] == s[0];
      assert TrimStartBy(p, s + [c]) == s + [c] && TrimStartBy(p, s) == s;
      assert (s + [c])[..|s + [c]| - 1] == s;
    }
  }

  function PushFirst(x: char, pieces: seq<string>): seq<string>
    requires pieces != []
  {
    [[x] + pieces[0]] + pieces[1..]
  }

  function AppendLast(pieces: seq<string>, c: char): seq<string>
    requires pieces != []
  {
    pieces[..|pieces| - 1] + [pieces[|pieces| - 1] + [c]]
  }

  lemma PushAppend(x: char, pieces: seq<string>, c: char)
    requires pieces != []
    ensures AppendLast(PushFirst(x, pieces), c) == PushFirst(x, AppendLast(pieces, c))
    ensures AppendLast([[]] + pieces, c) == [[]] + AppendLast(pieces, c)
  {
    if |pieces| == 1 {
      assert [x] + (pieces[0] + [c]) == [x] + pieces[0] + [c];
    }
  }

  lemma {:induction false} SplitSnoc(s: string, sep: char, c: char)
    requires c != sep
    ensures Split(s + [c], sep) == AppendLast(Split(s, sep), c)
  {
    if s == "" {
      assert s + [c] == [c];
      assert [c][1..] == "";
      assert Split("", sep) == [""];
      assert Split([c], sep) == PushFirst(c, [""]);
      assert [c] + "" == "" + [c];
    } else {
      assert (s + [c])[0] == s[0] && (s + [c])[1..] == s[1..] + [c];
      SplitSnoc(s[1..], sep, c);
      PushAppend(s[0], Split(s[1..], sep), c);
    }
  }

  /** The character makes no difference at either end of what is to be trimmed. */
  ghost predicate Ignores(trim: string -> string, c: char) {
    forall s: string :: trim([c] + s) == trim(s) && trim(s + [c]) == trim(s)
  }

  lemma TrimIgnores(p: char -> bool, c: char)
    requires p(c)
    ensures forall s: string :: TrimBy(p, [c] + s) == TrimBy(p, s) && TrimBy(p, s + [c]) == TrimBy(p, s)
  {
    forall s: string ensures TrimBy(p, [c] + s) == TrimBy(p, s) && TrimBy(p, s + [c]) == TrimBy(p, s) {
      TrimConsBlank(p, c, s);
      TrimSnocBlank(p, s, c);
    }
  }

  lemma PiecesCons(trim: string -> string, c: char, line: string)
    requires c != ',' && Ignores(trim, c)
    ensures Pieces(trim, [c] + line) == Pieces(trim, line)
  {
    assert ([c] + line)[1..] == line;
    var rest := Split(line, ',');
    var more := [[c] + rest[0]] + rest[1..];
    assert Split([c] + line, ',') == more;
    assert more[1..] == rest[1..];
    assert trim([c] + rest[0]) == trim(rest[0]);
  }

  lemma PiecesSnoc(trim: string -> string, line: string, c: char)
    requires c != ',' && Ignores(trim, c)
    ensures Pieces(trim, line + [c]) == Pieces(trim, line)
  {
    var r := Split(line, ',');
    var init, last := r[..|r| - 1], r[|r| - 1];
    SplitSnoc(line, ',', c);
    KeptSnoc(trim, init, last);
    KeptSnoc(trim, init, last + [c]);
    assert r == init + [last];
    assert trim(last + [c]) == trim(last);
  }

  lemma {:induction false} PiecesTrimStart(trim: string -> string, p: char -> bool, line: string)
    requires forall c :: p(c) ==> c != ',' && Ignores(trim, c)
    ensures Pieces(trim, TrimStartBy(p, line)) == Pieces(trim, line)
  {
    if line != "" && p(line[0]) {
      PiecesTrimStart(trim, p, line[1..]);
      PiecesCons(trim, line[0], line[1..]);
      assert [line[0]] + line[1..] == line;
    }
  }

  lemma {:induction false} PiecesTrimEnd(trim: string -> string, p: char -> bool, line: string)
    requires forall c :: p(c) ==> c != ',' && Ignores(trim, c)
    ensures Pieces(trim, TrimEndBy(p, line)) == Pieces(trim, line)
  {
    if line != "" && p(line[|line| - 1]) {
      PiecesTrimEnd(trim, p, line[..|line| - 1]);
      PiecesSnoc(trim, line[..|line| - 1], line[|line| - 1]);
      assert line[..|line| - 1] + [line[|line| - 1]] == line;
    }
  }

  lemma SpacesIgnored()
    ensures forall c :: IsWhitespace(c) ==> c != ',' && Ignores(Trim, c)
  {
    forall c | IsWhitespace(c) ensures c != ',' && Ignores(Trim, c) {
      TrimIgnores(IsWhitespace, c);
    }
  }

  lemma PiecesTrim(line: string)
    ensures Pieces(Trim, Trim(line)) == Pieces(Trim, line)
  {
    SpacesIgnored();
    PiecesTrimStart(Trim, IsWhitespace, line);
    PiecesTrimEnd(Trim, IsWhitespace, TrimStartBy(IsWhitespace, line));
  }

  lemma {:induction false} DroppedEmpties(trim: string -> string, pieces: seq<string>)
    requires trim("") == ""
    ensures Kept(trim, DropTrailingEmpty(pieces)) == Kept(trim, pieces)
  {
    if pieces != [] && pieces[|pieces| - 1] == "" {
      DroppedEmpties(trim, pieces[..|pieces| - 1]);
      KeptSnoc(trim, pieces[..|pieces| - 1], "");
      assert pieces == pieces[..|pieces| - 1] + [""];
    }
  }

  // ---------- Same white space, same pieces ----------

  /** The text uses no character that only one of the two languages treats as white space. */
  predicate PlainSpaces(text: string) {
    forall k | 0 <= k < |text| :: IsWhitespace(text[k]) == IsRubySpace(text[k])
  }

  lemma {:induction false} SameTrimStart(s: string)
    requires PlainSpaces(s)
    ensures TrimStartBy(IsWhitespace, s) == TrimStartBy(IsRubySpace, s)
  {
    if s != "" {
      assert IsWhitespace(s[0]) == IsRubySpace(s[0]);
      SameTrimStart(s[1..]);
    }
  }

  lemma {:induction false} SameTrimEnd(s: string)
    requires PlainSpaces(s)
    ensures TrimEndBy(IsWhitespace, s) == TrimEndBy(IsRubySpace, s)
  {
    if s != "" {
      assert IsWhitespace(s[|s| - 1]) == IsRubySpace(s[|s| - 1]);
      SameTrimEnd(s[..|s| - 1]);
    }
  }

  lemma SameTrim(s: string)
    requires PlainSpaces(s)
    ensures Trim(s) == RubyStrip(s)
  {
    SameTrimStart(s);
    TrimStartExactly(IsWhitespace, s);
    SameTrimEnd(TrimStartBy(IsWhitespace, s));
  }

  lemma {:induction false} SplitPlain(s: string, sep: char)
    requires PlainSpaces(s)
    ensures forall q | q in Split(s, sep) :: PlainSpaces(q)
  {
    if s != "" {
      assert IsWhitespace(s[0]) == IsRubySpace(s[0]);
      SplitPlain(s[1..], sep);
      var rest := Split(s[1..], sep);
      assert rest[0] in rest;
      assert PlainSpaces([s[0]] + rest[0]);
      forall q | q in Split(s, sep) ensures PlainSpaces(q) {
        assert q in rest || q == [s[0]] + rest[0] || q == [];
      }
    }
  }

  lemma {:induction false} SameKept(pieces: seq<string>)
    requires forall q | q in pieces :: PlainSpaces(q)
    ensures Kept(Trim, pieces) == Kept(RubyStrip, pieces)
  {
    if pieces != [] {
      SameTrim(pieces[0]);
      SameKept(pieces[1..]);
    }
  }

  // ---------- Line by line ----------

  predicate CommentLine(line: string) {
    HashLed(Trim(line))
  }

  lemma BlankLinePieces(line: string)
    requires Trim(line) == ""
    ensures Pieces(Trim, line) == []
  {
    PiecesTrim(line);
    assert Split("", ',') == [""];
    assert Trim("") == "";
    assert Kept(Trim, [""]) == Kept(Trim, [""][1..]);
  }

  /** Both parsers, on one line, in terms of the same list of pieces. */
  lemma LineInPieces(line: string)
    requires PlainSpaces(line)
    ensures RustLine(line) == if CommentLine(line) then [] else Pieces(Trim, line)
    ensures RubyLine(line) == Unhashed(Pieces(Trim, line))
  {
    PiecesTrim(line);
    if Trim(line) == "" {
      BlankLinePieces(line);
    }
    assert RubyStrip("") == "";
    DroppedEmpties(RubyStrip, Split(line, ','));
    SplitPlain(line, ',');
    SameKept(Split(line, ','));
  }

  /** Appending a white-space character to a line changes neither reading of it. */
  lemma BlankAppended(line: string, c: char)
    requires PlainSpaces(line) && IsWhitespace(c) && IsRubySpace(c)
    ensures PlainSpaces(line + [c])
    ensures RustLine(line + [c]) == RustLine(line) && RubyLine(line + [c]) == RubyLine(line)
  {
    assert PlainSpaces(line + [c]);
    LineInPieces(line);
    LineInPieces(line + [c]);
    SpacesIgnored();
    PiecesSnoc(Trim, line, c);
    TrimSnocBlank(IsWhitespace, line, c);
  }

  lemma NewlineIgnored(line: string)
    requires PlainSpaces(line)
    ensures RubyLine(line + "\n") == RubyLine(line)
  {
    BlankAppended(line, '\n');
    assert line + "\n" == line + ['\n'];
  }

  lemma ReturnIgnored(line: string)
    requires PlainSpaces(line)
    ensures RustLine(DropReturn(line)) == RustLine(line)
  {
    if line != "" && line[|line| - 1] == '\r' {
      var init := line[..|line| - 1];
      assert PlainSpaces(init);
      BlankAppended(init, '\r');
      assert line == init + ['\r'];
    }
  }

  lemma {:induction false} LinesIgnoreTerminators(pieces: seq<string>)
    requires pieces != [] && forall q | q in pieces :: PlainSpaces(q)
    ensures RustAll(RustLines(pieces)) == RustAll(pieces)
    ensures RubyAll(RubyLines(pieces)) == RubyAll(pieces)
    decreases |pieces|
  {
    LineInPieces(pieces[0]);
    if |pieces| == 1 {
      assert pieces == [pieces[0]];
      if pieces[0] == "" {
        BlankLinePieces("");
        assert RubyLine("") == [] && RustLine("") == [];
        assert pieces[1..] == [];
      }
    } else {
      ReturnIgnored(pieces[0]);
      NewlineIgnored(pieces[0]);
      LinesIgnoreTerminators(pieces[1..]);
      assert RustLines(pieces)[1..] == RustLines(pieces[1..]);
      assert RubyLines(pieces)[1..] == RubyLines(pieces[1..]);
    }
  }

  // ---------- Agreement ----------

  /** After the commas of a comment line come only blank or `#`-led pieces. */
  predicate CleanComment(line: string) {
    CommentLine(line) ==> forall e | e in Pieces(Trim, line) :: HashLed(e)
  }

  /** A line that is not a comment has no `#`-led piece. */
  predicate CleanEntries(line: string) {
    !CommentLine(line) ==> forall e | e in Pieces(Trim, line) :: !HashLed(e)
  }

  lemma {:induction false} UnhashedExactly(entries: seq<string>)
    ensures forall e :: e in Unhashed(entries) <==> e in entries && !HashLed(e)
    ensures |Unhashed(entries)| <= |entries|
    ensures Unhashed(entries) == [] <==> forall e | e in entries :: HashLed(e)
    ensures (forall e | e in entries :: !HashLed(e)) ==> Unhashed(entries) == entries
  {
    if entries != [] {
      UnhashedExactly(entries[1..]);
      assert entries == [entries[0]] + entries[1..];
    }
  }

  lemma {:induction false} NoHashAll(lines: seq<string>)
    requires forall q | q in lines :: PlainSpaces(q)
    ensures forall e | e in RubyAll(lines) :: !HashLed(e)
    ensures (forall q | q in lines :: CleanEntries(q)) <==> (forall e | e in RustAll(lines) :: !HashLed(e))
  {
    if lines != [] {
      var line, rest := lines[0], lines[1..];
      assert lines == [line] + rest;
      NoHashAll(rest);
      LineInPieces(line);
      UnhashedExactly(Pieces(Trim, line));
      assert CleanEntries(line) <==> forall e | e in RustLine(line) :: !HashLed(e);
      assert forall e :: e in RustAll(lines) <==> e in RustLine(line) || e in RustAll(rest);
      assert forall e :: e in RubyAll(lines) <==> e in RubyLine(line) || e in RubyAll(rest);
    }
  }

  /** On one line without `#`-led entries the checker reads at least as much, and more only from comments. */
  lemma LineLengths(line: string)
    requires PlainSpaces(line) && CleanEntries(line)
    ensures |RustLine(line)| <= |RubyLine(line)|
    ensures CleanComment(line) <==> RustLine(line) == RubyLine(line)
    ensures CleanComment(line) <==> |RustLine(line)| == |RubyLine(line)|
  {
    LineInPieces(line);
    UnhashedExactly(Pieces(Trim, line));
  }

  lemma {:induction false} AllLengths(lines: seq<string>)
    requires forall q | q in lines :: PlainSpaces(q) && CleanEntries(q)
    ensures |RustAll(lines)| <= |RubyAll(lines)|
    ensures (forall q | q in lines :: CleanComment(q)) ==> RustAll(lines) == RubyAll(lines)
    ensures |RustAll(lines)| == |RubyAll(lines)| ==> forall q | q in lines :: CleanComment(q)
  {
    if lines != [] {
      assert lines == [lines[0]] + lines[1..];
      AllLengths(lines[1..]);
      LineLengths(lines[0]);
    }
  }

  lemma {:induction false} AllWithin(lines: seq<string>)
    requires forall q | q in lines :: PlainSpaces(q) && CleanComment(q)
    ensures forall e | e in RubyAll(lines) :: e in RustAll(lines)
  {
    if lines != [] {
      assert lines == [lines[0]] + lines[1..];
      AllWithin(lines[1..]);
      LineInPieces(lines[0]);
      UnhashedExactly(Pieces(Trim, lines[0]));
    }
  }

  /**
   * On files whose white space both languages recognize, the provider and the checker read the
   * same entries in the same order if and only if comment lines carry only blank or `#`-led
   * pieces and no other line has a `#`-led piece.
   */
  lemma ParsersAgreeExactly(text: string)
    requires PlainSpaces(text)
    ensures RustEntries(text) == RubyEntries(text) <==>
            forall line | line in Split(text, '\n') :: CleanComment(line) && CleanEntries(line)
  {
    var lines := Split(text, '\n');
    SplitPlain(text, '\n');
    LinesIgnoreTerminators(lines);
    NoHashAll(lines);
    if forall line | line in lines :: CleanEntries(line) {
      AllLengths(lines);
    }
  }

  /** Clean comments alone make every entry the checker sees one that the provider sees. */
  lemma CheckerEntriesAreProviderEntries(text: string)
    requires PlainSpaces(text)
    requires forall line | line in Split(text, '\n') :: CleanComment(line)
    ensures forall e | e in RubyEntries(text) :: e in RustEntries(text)
  {
    var lines := Split(text, '\n');
    SplitPlain(text, '\n');
    LinesIgnoreTerminators(lines);
    AllWithin(lines);
  }

  /** No entry the provider reads is blank. */
  lemma {:induction false} EntriesNotEmpty(lines: seq<string>)
    ensures forall e | e in RustAll(lines) :: e != ""
  {
    if lines != [] {
      EntriesNotEmpty(lines[1..]);
      KeptNotEmpty(Trim, Split(Trim(lines[0]), ','));
    }
  }

  lemma {:induction false} KeptNotEmpty(trim: string -> string, pieces: seq<string>)
    ensures forall e | e in Kept(trim, pieces) :: e != ""
  {
    if pieces != [] {
      KeptNotEmpty(trim, pieces[1..]);
    }
  }

  // ---------- What a file lists, in terms of its text ----------

  lemma {:induction false} KeptExactly(trim: string -> string, pieces: seq<string>, e: string)
    ensures e in Kept(trim, pieces) <==> e != "" && exists q | q in pieces :: trim(q) == e
  {
    if pieces != [] {
      KeptExactly(trim, pieces[1..], e);
      assert pieces == [pieces[0]] + pieces[1..];
    }
  }

  /** A comma-separated piece of the line that trims to the entry. */
  ghost predicate Lists(trim: string -> string, line: string, e: string) {
    e != "" && exists q :: IsPiece(line, ',', q) && trim(q) == e
  }

  lemma PiecesList(trim: string -> string, line: string, e: string)
    ensures e in Pieces(trim, line) <==> Lists(trim, line, e)
  {
    KeptExactly(trim, Split(line, ','), e);
    forall q ensures q in Split(line, ',') <==> IsPiece(line, ',', q) {
      SplitPieces(line, ',', q);
    }
  }

  lemma RustLineExactly(line: string, e: string)
    ensures e in RustLine(line) <==> !("#" <= Trim(line)) && Lists(Trim, line, e)
  {
    PiecesTrim(line);
    if Trim(line) == "" {
      BlankLinePieces(line);
    }
    PiecesList(Trim, line, e);
  }

  lemma RubyLineExactly(line: string, e: string)
    ensures e in RubyLine(line) <==> !("#" <= e) && Lists(RubyStrip, line, e)
  {
    assert RubyStrip("") == "";
    DroppedEmpties(RubyStrip, Split(line, ','));
    UnhashedExactly(Pieces(RubyStrip, line));
    PiecesList(RubyStrip, line, e);
  }

  lemma TerminatorsIgnored(line: string)
    ensures RustLine(DropReturn(line)) == RustLine(line)
    ensures RubyLine(line + "\n") == RubyLine(line)
  {
    if line != "" && line[|line| - 1] == '\r' {
      TrimSnocBlank(IsWhitespace, line[..|line| - 1], '\r');
      assert line == line[..|line| - 1] + ['\r'];
    }
    TrimIgnores(IsRubySpace, '\n');
    PiecesSnoc(RubyStrip, line, '\n');
    assert line + "\n" == line + ['\n'];
    assert RubyStrip("") == "";
    DroppedEmpties(RubyStrip, Split(line, ','));
    DroppedEmpties(RubyStrip, Split(line + "\n", ','));
  }

  lemma {:induction false} AnyLine(pieces: seq<string>, e: string)
    requires pieces != []
    ensures e in RustAll(RustLines(pieces)) <==> exists q | q in pieces :: e in RustLine(q)
    ensures e in RubyAll(RubyLines(pieces)) <==> exists q | q in pieces :: e in RubyLine(q)
    decreases |pieces|
  {
    assert pieces == [pieces[0]] + pieces[1..];
    if |pieces| == 1 {
      if pieces[0] == "" {
        RustLineExactly("", e);
        assert Split("", ',') == [""] && RubyLine("") == [];
      } else {
        assert RustAll(pieces) == RustLine(pieces[0]) + RustAll([]);
        assert RubyAll(pieces) == RubyLine(pieces[0]) + RubyAll([]);
      }
    } else {
      TerminatorsIgnored(pieces[0]);
      AnyLine(pieces[1..], e);
      assert RustLines(pieces)[1..] == RustLines(pieces[1..]);
      assert RubyLines(pieces)[1..] == RubyLines(pieces[1..]);
    }
  }

  /**
   * For every text: the provider reads an entry exactly when it is a trimmed, non-blank piece
   * between commas of a line that does not start with `#` after trimming; the checker, exactly
   * when it is such a piece of any line and does not itself start with `#`.
   */
  lemma EntriesExactly(text: string, e: string)
    ensures e in RustEntries(text) <==>
            exists line :: IsPiece(text, '\n', line) && !("#" <= Trim(line)) && Lists(Trim, line, e)
    ensures e in RubyEntries(text) <==>
            exists line :: IsPiece(text, '\n', line) && !("#" <= e) && Lists(RubyStrip, line, e)
  {
    AnyLine(Split(text, '\n'), e);
    forall line
      ensures line in Split(text, '\n') <==> IsPiece(text, '\n', line)
      ensures e in RustLine(line) <==> !("#" <= Trim(line)) && Lists(Trim, line, e)
      ensures e in RubyLine(line) <==> !("#" <= e) && Lists(RubyStrip, line, e)
    {
      SplitPieces(text, '\n', line);
      RustLineExactly(line, e);
      RubyLineExactly(line, e);
    }
  }
}
