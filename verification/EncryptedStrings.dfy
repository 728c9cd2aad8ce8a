// The `2.iv|data|mac` format of authenticated encrypted strings: base64 (RFC 4648, section 4,
// canonical padding and trailing bits), the parser, and its printer.

module Base64 {
  import opened Prelude

  type Sextet = n: int | 0 <= n < 64

  function SextetChar(n: Sextet): char {
    if n < 26 then ('A' as int + n) as char
    else if n < 52 then ('a' as int + (n - 26)) as char
    else if n < 62 then ('0' as int + (n - 52)) as char
    else if n == 62 then '+'
    else '/'
  }

  function CharSextet(c: char): Option<Sextet> {
    if 'A' <= c <= 'Z' then Some(c as int - 'A' as int)
    else if 'a' <= c <= 'z' then Some(c as int - 'a' as int + 26)
    else if '0' <= c <= '9' then Some(c as int - '0' as int + 52)
    else if c == '+' then Some(62)
    else if c == '/' then Some(63)
    else None
  }

  lemma SextetInverse(c: char, n: Sextet)
    ensures CharSextet(c) == Some(n) <==> c == SextetChar(n)
  {
  }

  /** The four sextets of a 24-bit group, most significant first. */
  function Group(a: Byte, b: Byte, c: Byte): string {
    [SextetChar(a / 4), SextetChar(a % 4 * 16 + b / 16), SextetChar(b % 16 * 4 + c / 64), SextetChar(c % 64)]
  }

  function Encode(bytes: seq<Byte>): string {
    if |bytes| == 0 then ""
    else if |bytes| == 1 then Group(bytes[0], 0, 0)[..2] + "=="
    else if |bytes| == 2 then Group(bytes[0], bytes[1], 0)[..3] + "="
    else Group(bytes[0], bytes[1], bytes[2]) + Encode(bytes[3..])
  }

  function Bytes3(p: int, q: int, r: int, s: int): (bytes: seq<Byte>)
    requires 0 <= p < 64 && 0 <= q < 64 && 0 <= r < 64 && 0 <= s < 64
    ensures |bytes| == 3
  {
    [p * 4 + q / 16, q % 16 * 16 + r / 4, r % 4 * 64 + s]
  }

  /** The bytes of one group of four characters; padding is legal only in the last group. */
  function DecodeGroup(g: string, last: bool): Option<seq<Byte>>
    requires |g| == 4
  {
    match (CharSextet(g[0]), CharSextet(g[1]), CharSextet(g[2]), CharSextet(g[3]))
    case (Some(p), Some(q), Some(r), Some(s)) =>
      Some(Bytes3(p, q, r, s))
    case (Some(p), Some(q), Some(r), None) =>
      if last && g[3] == '=' && r % 4 == 0 then Some(Bytes3(p, q, r, 0)[..2]) else None
    case (Some(p), Some(q), None, None) =>
      if last && g[2] == '=' && g[3] == '=' && q % 16 == 0 then Some(Bytes3(p, q, 0, 0)[..1]) else None
    case _ => None
  }

  function Decode(s: string): Option<seq<Byte>> {
    if s == "" then Some([])
    else if |s| < 4 then None
    else
      match DecodeGroup(s[..4], |s| == 4)
      case None => None
      case Some(head) =>
        match Decode(s[4..])
        case None => None
        case Some(tail) => Some(head + tail)
  }

  /** A full group reads as the same 24-bit big-endian number as its three bytes. */
  lemma GroupIsBigEndian(a: Byte, b: Byte, c: Byte)
    ensures var g := Group(a, b, c);
            forall i | 0 <= i < 4 :: CharSextet(g[i]).Some?
    ensures var g := Group(a, b, c);
            ((CharSextet(g[0]).value * 64 + CharSextet(g[1]).value) * 64 + CharSextet(g[2]).value) * 64
              + CharSextet(g[3]).value
            == (a * 256 + b) * 256 + c
  {
    SextetInverse(SextetChar(a / 4), a / 4);
    SextetInverse(SextetChar(a % 4 * 16 + b / 16), a % 4 * 16 + b / 16);
    SextetInverse(SextetChar(b % 16 * 4 + c / 64), b % 16 * 4 + c / 64);
    SextetInverse(SextetChar(c % 64), c % 64);
  }

  /** Cutting bytes into sextets and the sextets into bytes again changes nothing. */
  lemma BytesOfGroup(a: Byte, b: Byte, c: Byte)
    ensures Bytes3(a / 4, a % 4 * 16 + b / 16, b % 16 * 4 + c / 64, c % 64) == [a, b, c]
  {
    assert a / 4 * 4 + (a % 4 * 16 + b / 16) / 16 == a;
    assert (a % 4 * 16 + b / 16) % 16 * 16 + (b % 16 * 4 + c / 64) / 4 == b;
    assert (b % 16 * 4 + c / 64) % 4 * 64 + c % 64 == c;
  }

  lemma DecodeGroupEncode(a: Byte, b: Byte, c: Byte, last: bool)
    ensures DecodeGroup(Group(a, b, c), last) == Some([a, b, c])
  {
    SextetInverse(SextetChar(a / 4), a / 4);
    SextetInverse(SextetChar(a % 4 * 16 + b / 16), a % 4 * 16 + b / 16);
    SextetInverse(SextetChar(b % 16 * 4 + c / 64), b % 16 * 4 + c / 64);
    SextetInverse(SextetChar(c % 64), c % 64);
    BytesOfGroup(a, b, c);
  }

  lemma DecodeGroupEncode2(a: Byte, b: Byte)
    ensures DecodeGroup(Group(a, b, 0)[..3] + "=", true) == Some([a, b])
  {
    var p, q, r := a / 4, a % 4 * 16 + b / 16, b % 16 * 4;
    var g := [SextetChar(p), SextetChar(q), SextetChar(r), '='];
    assert Group(a, b, 0)[..3] + "=" == g;
    SextetInverse(g[0], p);
    SextetInverse(g[1], q);
    SextetInverse(g[2], r);
    assert r % 4 == 0;
    assert Bytes3(p, q, r, 0) == [a, b, 0] by {
      BytesOfGroup(a, b, 0);
    }
    assert [a, b, 0][..2] == [a, b];
  }

  lemma DecodeGroupEncode1(a: Byte)
    ensures DecodeGroup(Group(a, 0, 0)[..2] + "==", true) == Some([a])
  {
    var p, q := a / 4, a % 4 * 16;
    var g := [SextetChar(p), SextetChar(q), '=', '='];
    assert Group(a, 0, 0)[..2] + "==" == g;
    SextetInverse(g[0], p);
    SextetInverse(g[1], q);
    assert q % 16 == 0;
    assert Bytes3(p, q, 0, 0) == [a, 0, 0] by {
      BytesOfGroup(a, 0, 0);
    }
    assert [a, 0, 0][..1] == [a];
  }

  lemma EncodeGroupDecode(g: string, last: bool)
    requires |g| == 4 && DecodeGroup(g, last).Some?
    ensures Encode(DecodeGroup(g, last).value) == g
    ensures var d := DecodeGroup(g, last).value; 1 <= |d| <= 3 && (!last ==> |d| == 3)
  {
    var p, q := CharSextet(g[0]).value, CharSextet(g[1]).value;
    SextetInverse(g[0], p);
    SextetInverse(g[1], q);
    if CharSextet(g[3]).Some? {
      SextetInverse(g[2], CharSextet(g[2]).value);
      SextetInverse(g[3], CharSextet(g[3]).value);
      EncodeThree(g, p, q, CharSextet(g[2]).value, CharSextet(g[3]).value);
    } else if CharSextet(g[2]).Some? {
      SextetInverse(g[2], CharSextet(g[2]).value);
      EncodeTwo(g, p, q, CharSextet(g[2]).value);
    } else {
      EncodeOne(g, p, q);
    }
  }

  lemma EncodeThree(g: string, p: Sextet, q: Sextet, r: Sextet, s: Sextet)
    requires g == [SextetChar(p), SextetChar(q), SextetChar(r), SextetChar(s)]
    ensures Encode(Bytes3(p, q, r, s)) == g
  {
    var d := Bytes3(p, q, r, s);
    GroupOfBytes(p, q, r, s);
    assert d[3..] == [] && g + "" == g;
  }

  lemma EncodeTwo(g: string, p: Sextet, q: Sextet, r: Sextet)
    requires g == [SextetChar(p), SextetChar(q), SextetChar(r), '='] && r % 4 == 0
    ensures Encode(Bytes3(p, q, r, 0)[..2]) == g
  {
    GroupOfBytes(p, q, r, 0);
    assert Bytes3(p, q, r, 0)[2] == 0;
  }

  lemma EncodeOne(g: string, p: Sextet, q: Sextet)
    requires g == [SextetChar(p), SextetChar(q), '=', '='] && q % 16 == 0
    ensures Encode(Bytes3(p, q, 0, 0)[..1]) == g
  {
    GroupOfBytes(p, q, 0, 0);
    assert Bytes3(p, q, 0, 0)[1] == 0 && Bytes3(p, q, 0, 0)[2] == 0;
  }

  /** Cutting four sextets into bytes and the bytes into sextets again changes nothing. */
  lemma GroupOfBytes(p: Sextet, q: Sextet, r: Sextet, s: Sextet)
    ensures var d := Bytes3(p, q, r, s);
            Group(d[0], d[1], d[2]) == [SextetChar(p), SextetChar(q), SextetChar(r), SextetChar(s)]
  {
    var d := Bytes3(p, q, r, s);
    assert d[0] / 4 == p;
    assert d[0] % 4 * 16 + d[1] / 16 == q;
    assert d[1] % 16 * 4 + d[2] / 64 == r;
    assert d[2] % 64 == s;
  }

  lemma DecodeLastGroup(g: string, bytes: seq<Byte>)
    requires |g| == 4 && DecodeGroup(g, true) == Some(bytes)
    ensures Decode(g) == Some(bytes)
  {
    assert g[..4] == g && g[4..] == "";
    assert Decode(g[4..]) == Some([]);
    assert bytes + [] == bytes;
  }

  lemma DecodeEncodeShort(bytes: seq<Byte>)
    requires |bytes| < 3
    ensures Decode(Encode(bytes)) == Some(bytes)
  {
    if |bytes| == 1 {
      DecodeGroupEncode1(bytes[0]);
      assert bytes == [bytes[0]];
      DecodeLastGroup(Encode(bytes), bytes);
    } else if |bytes| == 2 {
      DecodeGroupEncode2(bytes[0], bytes[1]);
      assert bytes == [bytes[0], bytes[1]];
      DecodeLastGroup(Encode(bytes), bytes);
    }
  }

  lemma {:induction false} DecodeEncode(bytes: seq<Byte>)
    ensures Decode(Encode(bytes)) == Some(bytes)
  {
    if |bytes| < 3 {
      DecodeEncodeShort(bytes);
    } else {
      var a, b, c, rest := bytes[0], bytes[1], bytes[2], bytes[3..];
      DecodeEncode(rest);
      DecodeGroupEncode(a, b, c, Encode(rest) == "");
      DecodeFullGroup(Group(a, b, c), Encode(rest), [a, b, c], rest);
      assert bytes == [a, b, c] + rest;
    }
  }

  lemma DecodeFullGroup(g: string, rest: string, head: seq<Byte>, tail: seq<Byte>)
    requires |g| == 4 && DecodeGroup(g, rest == "") == Some(head)
    requires Decode(rest) == Some(tail)
    ensures Decode(g + rest) == Some(head + tail)
  {
    var e := g + rest;
    assert e[..4] == g && e[4..] == rest;
    assert |e| == 4 <==> rest == "";
  }

  lemma {:induction false} EncodeDecode(s: string)
    requires Decode(s).Some?
    ensures Encode(Decode(s).value) == s
  {
    if s != "" {
      var head := DecodeGroup(s[..4], |s| == 4).value;
      var tail := Decode(s[4..]).value;
      EncodeGroupDecode(s[..4], |s| == 4);
      EncodeDecode(s[4..]);
      assert s == s[..4] + s[4..];
      if |s| == 4 {
        assert head + tail == head;
      } else {
        assert (head + tail)[3..] == tail && head[3..] == [];
      }
    }
  }

  /** Decoding accepts exactly the canonical encodings: the two functions are inverse. */
  lemma DecodesExactlyEncodings(s: string, bytes: seq<Byte>)
    ensures Decode(s) == Some(bytes) <==> s == Encode(bytes)
  {
    DecodeEncode(bytes);
    if Decode(s).Some? {
      EncodeDecode(s);
    }
  }

  lemma {:induction false} EncodeAlphabet(bytes: seq<Byte>)
    ensures forall c | c in Encode(bytes) :: CharSextet(c).Some? || c == '='
  {
    if |bytes| > 0 {
      var a, b, c := bytes[0], if |bytes| > 1 then bytes[1] else 0, if |bytes| > 2 then bytes[2] else 0;
      GroupIsBigEndian(a, b, c);
      if |bytes| >= 3 {
        EncodeAlphabet(bytes[3..]);
      }
    }
  }
}

module EncryptedStrings {
  import opened Prelude
  import opened Text
  import opened Errors
  import Base64

  const IV_LENGTH := 16
  const MAC_LENGTH := 32
  const KEY_LENGTH := 32

  datatype EncryptionType = AesCbc256HmacSha256B64

  datatype EncryptedString = EncryptedString(
    encryptionType: EncryptionType, iv: seq<Byte>, data: seq<Byte>, mac: seq<Byte>)

  predicate WellSized(e: EncryptedString) {
    |e.iv| == IV_LENGTH && |e.data| > 0 && |e.data| % IV_LENGTH == 0 && |e.mac| == MAC_LENGTH
  }

  /** Rust's `str::parse::<u8>`: an optional `+`, at least one digit, at most 255. */
  function ParseU8(s: string): Option<nat> {
    var digits := if s != "" && s[0] == '+' then s[1..] else s;
    if digits == "" || !AllDigits(digits) || DecimalValue(digits) > 255 then None
    else Some(DecimalValue(digits))
  }

  function ParseEncryptionType(header: string): Result<EncryptionType, CryptoError> {
    match ParseU8(header)
    case None => Err(InvalidEncryptionTypeHeader)
    case Some(n) =>
      if n == 0 then Err(LegacyNoMacDisabled)
      else if n == 2 then Ok(AesCbc256HmacSha256B64)
      else Err(UnsupportedEncryptionType(n))
  }

  function DecodePart(part: string, raw: string): Result<seq<Byte>, CryptoError> {
    match Base64.Decode(raw)
    case None => Err(InvalidBase64(part))
    case Some(bytes) => Ok(bytes)
  }

  /** `EncryptedString::from_str`. */
  function Parse(raw: string): Result<EncryptedString, CryptoError> {
    match SplitOnce(raw, '.')
    case None => Err(LegacyNoMacDisabled)
    case Some((header, payload)) =>
      var encryptionType :- ParseEncryptionType(header);
      ParsePieces(encryptionType, Split(payload, '|'))
  }

  function ParsePieces(encryptionType: EncryptionType, pieces: seq<string>): (r: Result<EncryptedString, CryptoError>)
    ensures r.Ok? ==> WellSized(r.value)
    ensures r.Err? ==> r.error != LegacyNoMacDisabled
  {
    if |pieces| != 3 then Err(InvalidPartCount)
    else
      var iv :- DecodePart("iv", pieces[0]);
      var data :- DecodePart("data", pieces[1]);
      var mac :- DecodePart("mac", pieces[2]);
      if |iv| != IV_LENGTH then Err(InvalidIvLength(|iv|))
      else if |mac| != MAC_LENGTH then Err(InvalidMacLength(|mac|))
      else if |data| == 0 || |data| % IV_LENGTH != 0 then Err(InvalidCiphertextLength(|data|))
      else Ok(EncryptedString(encryptionType, iv, data, mac))
  }

  function Payload(e: EncryptedString): string {
    Join(Pieces(e), '|')
  }

  /** The printer of `scripts/vaultwarden-smoke.py`. */
  function Print(e: EncryptedString): string {
    "2" + ['.'] + Payload(e)
  }

  function Pieces(e: EncryptedString): seq<string> {
    [Base64.Encode(e.iv), Base64.Encode(e.data), Base64.Encode(e.mac)]
  }

  lemma PayloadSplits(e: EncryptedString)
    ensures Split(Payload(e), '|') == Pieces(e)
  {
    Base64.EncodeAlphabet(e.iv);
    Base64.EncodeAlphabet(e.data);
    Base64.EncodeAlphabet(e.mac);
    SplitJoin(Pieces(e), '|');
  }

  lemma PartExactly(part: string, raw: string, bytes: seq<Byte>)
    ensures DecodePart(part, raw) == Ok(bytes) <==> raw == Base64.Encode(bytes)
  {
    Base64.DecodesExactlyEncodings(raw, bytes);
  }

  lemma ParsedPiecesDecode(pieces: seq<string>, e: EncryptedString)
    requires ParsePieces(AesCbc256HmacSha256B64, pieces) == Ok(e)
    ensures |pieces| == 3
    ensures DecodePart("iv", pieces[0]) == Ok(e.iv)
    ensures DecodePart("data", pieces[1]) == Ok(e.data)
    ensures DecodePart("mac", pieces[2]) == Ok(e.mac)
  {
  }

  lemma ParsedPieces(pieces: seq<string>, e: EncryptedString)
    requires ParsePieces(AesCbc256HmacSha256B64, pieces) == Ok(e)
    ensures pieces == Pieces(e)
  {
    ParsedPiecesDecode(pieces, e);
    EncodedPieces(pieces, e);
  }

  lemma EncodedPieces(pieces: seq<string>, e: EncryptedString)
    requires |pieces| == 3
    requires DecodePart("iv", pieces[0]) == Ok(e.iv)
    requires DecodePart("data", pieces[1]) == Ok(e.data)
    requires DecodePart("mac", pieces[2]) == Ok(e.mac)
    ensures pieces == Pieces(e)
  {
    PartExactly("iv", pieces[0], e.iv);
    PartExactly("data", pieces[1], e.data);
    PartExactly("mac", pieces[2], e.mac);
    assert pieces == [pieces[0], pieces[1], pieces[2]];
  }

  lemma DecodedPiecesParse(pieces: seq<string>, e: EncryptedString)
    requires WellSized(e) && |pieces| == 3
    requires DecodePart("iv", pieces[0]) == Ok(e.iv)
    requires DecodePart("data", pieces[1]) == Ok(e.data)
    requires DecodePart("mac", pieces[2]) == Ok(e.mac)
    ensures ParsePieces(AesCbc256HmacSha256B64, pieces) == Ok(e)
  {
    assert e.encryptionType.AesCbc256HmacSha256B64?;
    assert e == EncryptedString(e.encryptionType, e.iv, e.data, e.mac);
  }

  lemma PiecesParse(e: EncryptedString)
    requires WellSized(e)
    ensures ParsePieces(AesCbc256HmacSha256B64, Pieces(e)) == Ok(e)
  {
    var pieces := Pieces(e);
    PartExactly("iv", pieces[0], e.iv);
    PartExactly("data", pieces[1], e.data);
    PartExactly("mac", pieces[2], e.mac);
    DecodedPiecesParse(pieces, e);
  }

  /** A numeric type header is a run of digits with at most one leading `+`; it has no dot. */
  lemma HeaderHasNoDot(header: string)
    requires ParseU8(header).Some?
    ensures '.' !in header
  {
    if header[0] == '+' {
      assert header == [header[0]] + header[1..];
    }
  }

  lemma {:induction false} DecimalZero(s: string)
    requires AllDigits(s)
    ensures DecimalValue(s) == 0 <==> AllZeros(s)
  {
    if s != "" {
      var n := |s| - 1;
      DecimalZero(s[..n]);
      assert IsDigit(s[n]);
      if AllZeros(s[..n]) && s[n] == '0' {
        forall k | 0 <= k < |s| ensures s[k] == '0' {
          assert k < n ==> s[k] == s[..n][k];
        }
      }
      if AllZeros(s) {
        assert forall k | 0 <= k < n :: s[..n][k] == s[k];
      }
    }
  }

  lemma DecimalTwo(s: string)
    requires AllDigits(s)
    ensures DecimalValue(s) == 2 <==> s != "" && s[|s| - 1] == '2' && AllZeros(s[..|s| - 1])
  {
    if s != "" {
      DecimalZero(s[..|s| - 1]);
      assert IsDigit(s[|s| - 1]);
    }
  }

  /** A header reads as n exactly when it is digits worth n, at most 255, or those after one `+`. */
  lemma ParseU8Exactly(header: string, n: nat)
    ensures ParseU8(header) == Some(n) <==>
            n <= 255 && exists digits :: IsNumeral(digits, n) && (header == digits || header == "+" + digits)
  {
    if ParseU8(header) == Some(n) {
      var digits := if header[0] == '+' then header[1..] else header;
      assert header == digits || header == "+" + digits;
      assert IsNumeral(digits, n);
    }
    forall digits | n <= 255 && IsNumeral(digits, n) && (header == digits || header == "+" + digits)
      ensures ParseU8(header) == Some(n)
    {
      assert IsDigit(digits[0]);
      assert header[0] == '+' ==> header[1..] == digits;
    }
  }

  predicate IsNumeral(digits: string, n: nat) {
    digits != "" && AllDigits(digits) && DecimalValue(digits) == n
  }

  /** The headers accepted for type 2 are `2`, with zeros and one `+` allowed in front. */
  lemma TypeTwoHeaders(header: string)
    ensures ParseU8(header) == Some(2) <==>
            exists zeros :: AllZeros(zeros) && (header == zeros + "2" || header == "+" + zeros + "2")
  {
    if ParseU8(header) == Some(2) {
      ZerosBeforeTwo(header);
    }
    forall zeros | AllZeros(zeros) && (header == zeros + "2" || header == "+" + zeros + "2")
      ensures ParseU8(header) == Some(2)
    {
      TwoAfterZeros(header, zeros);
    }
  }

  lemma ZerosBeforeTwo(header: string)
    requires ParseU8(header) == Some(2)
    ensures exists zeros :: AllZeros(zeros) && (header == zeros + "2" || header == "+" + zeros + "2")
  {
    var digits := if header[0] == '+' then header[1..] else header;
    var zeros := digits[..|digits| - 1];
    DecimalTwo(digits);
    assert digits == zeros + "2";
    assert header == digits || header == "+" + digits;
    assert "+" + digits == "+" + zeros + "2";
  }

  lemma TwoAfterZeros(header: string, zeros: string)
    requires AllZeros(zeros) && (header == zeros + "2" || header == "+" + zeros + "2")
    ensures ParseU8(header) == Some(2)
  {
    var digits := zeros + "2";
    assert header[0] == '+' ==> header[1..] == digits;
    assert digits[..|digits| - 1] == zeros;
    DecimalTwo(digits);
  }

  predicate PrintedWith(header: string, e: EncryptedString, raw: string) {
    ParseU8(header) == Some(2) && raw == header + ['.'] + Payload(e)
  }

  lemma PrintedSplits(header: string, e: EncryptedString, raw: string)
    requires PrintedWith(header, e, raw)
    ensures SplitOnce(raw, '.') == Some((header, Payload(e)))
  {
    HeaderHasNoDot(header);
    SplitOnceAt(header, '.', Payload(e));
  }

  lemma AcceptedIsPrinted(raw: string, e: EncryptedString)
    requires Parse(raw) == Ok(e)
    ensures WellSized(e) && PrintedWith(SplitOnce(raw, '.').value.0, e, raw)
  {
    var payload := SplitOnce(raw, '.').value.1;
    ParsedPieces(Split(payload, '|'), e);
    JoinSplit(payload, '|');
  }

  lemma PrintedIsAccepted(header: string, e: EncryptedString, raw: string)
    requires WellSized(e) && PrintedWith(header, e, raw)
    ensures Parse(raw) == Ok(e)
  {
    PrintedSplits(header, e, raw);
    PayloadSplits(e);
    PiecesParse(e);
  }

  /**
   * The parser accepts exactly the strings made of a header that is numerically 2, a dot, and
   * the canonical base64 of a 16-byte IV, a positive multiple of 16 data bytes and a 32-byte MAC.
   */
  lemma AcceptsExactly(raw: string, e: EncryptedString)
    ensures Parse(raw) == Ok(e) <==>
            && |e.iv| == 16 && |e.data| > 0 && |e.data| % 16 == 0 && |e.mac| == 32
            && exists header :: PrintedWith(header, e, raw)
  {
    if Parse(raw) == Ok(e) {
      AcceptedIsPrinted(raw, e);
    }
    if WellSized(e) {
      forall header | PrintedWith(header, e, raw) ensures Parse(raw) == Ok(e) {
        PrintedIsAccepted(header, e, raw);
      }
    }
  }

  /** Round trip: parsing what the printer wrote recovers the three parts. */
  lemma ParsePrinted(e: EncryptedString)
    requires WellSized(e)
    ensures Parse(Print(e)) == Ok(e)
  {
    assert AllZeros("") && "2" == "" + "2";
    TypeTwoHeaders("2");
    PrintedIsAccepted("2", e, Print(e));
  }

  /** Two accepted strings with the same parts differ only in how the number 2 is written. */
  lemma ParseIsInjectiveUpToHeader(a: string, b: string)
    requires Parse(a).Ok? && Parse(a) == Parse(b)
    ensures SplitOnce(a, '.').value.1 == SplitOnce(b, '.').value.1
  {
    var e := Parse(a).value;
    AcceptedIsPrinted(a, e);
    PrintedSplits(SplitOnce(a, '.').value.0, e, a);
    AcceptedIsPrinted(b, e);
    PrintedSplits(SplitOnce(b, '.').value.0, e, b);
  }

  /** Unauthenticated strings are refused as legacy exactly when untyped or of type 0. */
  lemma LegacyExactly(raw: string)
    ensures Parse(raw) == Err(LegacyNoMacDisabled) <==>
            '.' !in raw || ParseU8(SplitOnce(raw, '.').value.0) == Some(0)
  {
  }

  lemma {:induction false} SplitCounts(s: string, sep: char)
    ensures |Split(s, sep)| == multiset(s)[sep] + 1
  {
    if s != "" {
      assert s == [s[0]] + s[1..];
      SplitCounts(s[1..], sep);
    }
  }

  lemma ParseAt(header: string, payload: string)
    requires '.' !in header
    ensures Parse(header + ['.'] + payload) ==
            match ParseEncryptionType(header)
            case Err(e) => Err(e)
            case Ok(t) => ParsePieces(t, Split(payload, '|'))
  {
    SplitOnceAt(header, '.', payload);
  }

  /** The errors of the header, and of the number of parts: two bars make three of them. */
  lemma HeaderErrorsExactly(header: string, payload: string)
    requires '.' !in header
    ensures var r := Parse(header + ['.'] + payload);
            && (r == Err(InvalidEncryptionTypeHeader) <==> ParseU8(header).None?)
            && (forall n: nat :: r == Err(UnsupportedEncryptionType(n)) <==> ParseU8(header) == Some(n) && n != 0 && n != 2)
            && (r == Err(InvalidPartCount) <==> ParseU8(header) == Some(2) && multiset(payload)['|'] != 2)
  {
    ParseAt(header, payload);
    TypeErrors(header);
    SplitCounts(payload, '|');
    PieceErrors(Split(payload, '|'));
  }

  lemma TypeErrors(header: string)
    ensures var r := ParseEncryptionType(header);
            && (r.Ok? <==> ParseU8(header) == Some(2))
            && (r.Ok? ==> r.value == AesCbc256HmacSha256B64)
            && (r == Err(InvalidEncryptionTypeHeader) <==> ParseU8(header).None?)
            && (forall n: nat :: r == Err(UnsupportedEncryptionType(n)) <==> ParseU8(header) == Some(n) && n != 0 && n != 2)
            && r != Err(InvalidPartCount)
  {
  }

  lemma PieceErrors(pieces: seq<string>)
    ensures var r := ParsePieces(AesCbc256HmacSha256B64, pieces);
            && (r == Err(InvalidPartCount) <==> |pieces| != 3)
            && (r.Err? ==> !r.error.InvalidEncryptionTypeHeader? && !r.error.UnsupportedEncryptionType?)
  {
  }

  ghost predicate IsCanonical(raw: string) {
    exists bytes :: raw == Base64.Encode(bytes)
  }

  lemma CanonicalExactly(raw: string)
    ensures IsCanonical(raw) <==> Base64.Decode(raw).Some?
  {
    if IsCanonical(raw) {
      var bytes :| raw == Base64.Encode(bytes);
      Base64.DecodesExactlyEncodings(raw, bytes);
    }
    if Base64.Decode(raw).Some? {
      Base64.DecodesExactlyEncodings(raw, Base64.Decode(raw).value);
    }
  }

  lemma ThreeParts(iv: string, data: string, mac: string)
    requires '|' !in iv && '|' !in data && '|' !in mac
    ensures Split(iv + ['|'] + (data + ['|'] + mac), '|') == [iv, data, mac]
  {
    var pieces := [iv, data, mac];
    assert pieces[1..] == [data, mac] && pieces[1..][1..] == [mac];
    assert Join(pieces[1..], '|') == data + ['|'] + mac;
    assert Join(pieces, '|') == iv + ['|'] + (data + ['|'] + mac);
    SplitJoin(pieces, '|');
  }

  /** A part that is not canonical base64 is named, the first one of iv, data and mac. */
  lemma PartErrorsExactly(header: string, iv: string, data: string, mac: string)
    requires ParseU8(header) == Some(2) && '|' !in iv && '|' !in data && '|' !in mac
    ensures var r := Parse(header + ['.'] + (iv + ['|'] + (data + ['|'] + mac)));
            && (r == Err(InvalidBase64("iv")) <==> !IsCanonical(iv))
            && (r == Err(InvalidBase64("data")) <==> IsCanonical(iv) && !IsCanonical(data))
            && (r == Err(InvalidBase64("mac")) <==> IsCanonical(iv) && IsCanonical(data) && !IsCanonical(mac))
            && (r.Err? && r.error.InvalidBase64? ==> !(IsCanonical(iv) && IsCanonical(data) && IsCanonical(mac)))
  {
    HeaderHasNoDot(header);
    ParseAt(header, iv + ['|'] + (data + ['|'] + mac));
    ThreeParts(iv, data, mac);
    CanonicalExactly(iv);
    CanonicalExactly(data);
    CanonicalExactly(mac);
    PartNames();
  }

  lemma PartNames()
    ensures "iv" != "data" && "iv" != "mac" && "data" != "mac"
  {
    assert |"iv"| == 2 && "data"[0] != "mac"[0];
  }

  /** Three canonical parts of wrong sizes: the IV is judged first, then the MAC, then the data. */
  lemma SizeErrorsExactly(header: string, iv: seq<Byte>, data: seq<Byte>, mac: seq<Byte>)
    requires ParseU8(header) == Some(2)
    ensures var e := EncryptedString(AesCbc256HmacSha256B64, iv, data, mac);
            var r := Parse(header + ['.'] + Payload(e));
            && (|iv| != 16 ==> r == Err(InvalidIvLength(|iv|)))
            && (|iv| == 16 && |mac| != 32 ==> r == Err(InvalidMacLength(|mac|)))
            && (|iv| == 16 && |mac| == 32 && (|data| == 0 || |data| % 16 != 0) ==>
                  r == Err(InvalidCiphertextLength(|data|)))
  {
    var e := EncryptedString(AesCbc256HmacSha256B64, iv, data, mac);
    HeaderHasNoDot(header);
    ParseAt(header, Payload(e));
    PayloadSplits(e);
    PartExactly("iv", Pieces(e)[0], iv);
    PartExactly("data", Pieces(e)[1], data);
    PartExactly("mac", Pieces(e)[2], mac);
  }

  /** A 64-byte symmetric key: the encryption half, then the authentication half. */
  datatype SymmetricKey = SymmetricKey(encryptionKey: seq<Byte>, authenticationKey: seq<Byte>)

  /** `AuthenticatedSymmetricKey::try_from`. */
  function KeyFromBytes(raw: seq<Byte>): (r: Result<SymmetricKey, CryptoError>)
    ensures r.Ok? <==> |raw| == 64
    ensures r.Ok? ==>
              && |r.value.encryptionKey| == 32 == |r.value.authenticationKey|
              && r.value.encryptionKey + r.value.authenticationKey == raw
  {
    if |raw| != 2 * KEY_LENGTH then Err(InvalidKeyLength(|raw|))
    else Ok(SymmetricKey(raw[..KEY_LENGTH], raw[KEY_LENGTH..]))
  }
}
