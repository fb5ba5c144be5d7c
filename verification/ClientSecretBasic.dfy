/**
 * Client authentication by `client_secret_basic` (section 2.3.1 of RFC 6749):
 * what is sent, and what a provider that decodes by the standards reads.
 * Identifiers and secrets are their UTF-8 bytes.
 */
module ClientSecretBasic {
  import opened Wrappers
  import opened Text

  type Byte = b: int | 0 <= b < 256

  const COLON: Byte := 58

  // ---- percent-encoding ----

  /** The bytes `encodeURIComponent` leaves as they are. */
  predicate Unreserved(b: Byte) {
    || 'A' as int <= b <= 'Z' as int || 'a' as int <= b <= 'z' as int || '0' as int <= b <= '9' as int
    || b == '-' as int || b == '_' as int || b == '.' as int || b == '!' as int || b == '~' as int
    || b == '*' as int || b == '\'' as int || b == '(' as int || b == ')' as int
  }

  function HexDigit(v: int): Byte
    requires 0 <= v < 16
  {
    if v < 10 then '0' as int + v else 'A' as int + v - 10
  }

  function HexValue(b: Byte): Option<int> {
    if '0' as int <= b <= '9' as int then Some(b - '0' as int)
    else if 'A' as int <= b <= 'F' as int then Some(b - 'A' as int + 10)
    else if 'a' as int <= b <= 'f' as int then Some(b - 'a' as int + 10)
    else None
  }

  function EncodeComponent(s: seq<Byte>): seq<Byte> {
    if s == [] then []
    else
      var b := s[0];
      (if Unreserved(b) then [b] else ['%' as int, HexDigit(b / 16), HexDigit(b % 16)]) + EncodeComponent(s[1..])
  }

  /** A form-urlencoded decoder: `+` is a space, `%` and two hex digits a byte, anything else itself. */
  function FormDecode(t: seq<Byte>): Option<seq<Byte>> {
    if t == [] then Some([])
    else if t[0] == '%' as int then
      (if |t| < 3 || HexValue(t[1]).None? || HexValue(t[2]).None? then None
       else
         var rest := FormDecode(t[3..]);
         if rest.None? then None else Some([HexValue(t[1]).value * 16 + HexValue(t[2]).value] + rest.value))
    else
      var rest := FormDecode(t[1..]);
      if rest.None? then None else Some([if t[0] == '+' as int then ' ' as int else t[0]] + rest.value)
  }

  lemma {:induction false} ComponentRoundTrip(s: seq<Byte>)
    ensures FormDecode(EncodeComponent(s)) == Some(s)
    ensures COLON !in EncodeComponent(s)
  {
    if s != [] {
      var b, rest := s[0], EncodeComponent(s[1..]);
      ComponentRoundTrip(s[1..]);
      assert s == [b] + s[1..];
      if Unreserved(b) {
        assert ([b] + rest)[1..] == rest;
      } else {
        HexRoundTrip(b);
        assert (['%' as int, HexDigit(b / 16), HexDigit(b % 16)] + rest)[3..] == rest;
      }
    }
  }

  const MARKS := "-_.!~*'()"
  const HEX := "0123456789ABCDEF"

  predicate Listed(b: Byte) {
    b < 128 && (b as char in CAPITALS || b as char in SMALL_LETTERS || b as char in DIGITS || b as char in MARKS)
  }

  /** The encoding is the one of `encodeURIComponent`: its unreserved characters as they are, any other byte in capital hexadecimal. */
  lemma EncodesOneByte(b: Byte)
    ensures |HEX| == 16
    ensures EncodeComponent([b]) == if Listed(b) then [b] else ['%' as int, HEX[b / 16] as int, HEX[b % 16] as int]
  {
    UnreservedIsListed(b);
    HexDigits(b / 16);
    HexDigits(b % 16);
  }

  lemma HexDigits(v: int)
    requires 0 <= v < 16
    ensures |HEX| == 16 && HexDigit(v) == HEX[v] as int
  {
  }

  lemma MarksListed(c: char)
    ensures c in MARKS <==>
            c == '-' || c == '_' || c == '.' || c == '!' || c == '~' || c == '*' || c == '\'' || c == '(' || c == ')'
  {
    assert MARKS == ['-', '_', '.', '!', '~', '*', '\'', '(', ')'];
  }

  lemma UnreservedIsListed(b: Byte)
    ensures Unreserved(b) <==> Listed(b)
  {
    if b < 128 {
      CapitalsListed(b as char);
      SmallLettersListed(b as char);
      DigitsListed(b as char);
      MarksListed(b as char);
    }
  }

  /** And byte by byte. */
  lemma {:induction false} EncodesByteByByte(a: seq<Byte>, b: seq<Byte>)
    ensures EncodeComponent(a + b) == EncodeComponent(a) + EncodeComponent(b)
  {
    if a == [] {
      assert a + b == b;
    } else {
      assert (a + b)[1..] == a[1..] + b;
      EncodesByteByByte(a[1..], b);
    }
  }

  lemma HexRoundTrip(b: Byte)
    ensures HexValue(HexDigit(b / 16)) == Some(b / 16) && HexValue(HexDigit(b % 16)) == Some(b % 16)
    ensures HexDigit(b / 16) != COLON && HexDigit(b % 16) != COLON
    ensures b / 16 * 16 + b % 16 == b
  {
  }

  // ---- base64, section 4 of RFC 4648 ----

  function Letter(v: int): char
    requires 0 <= v < 64
  {
    if v < 26 then ('A' as int + v) as char
    else if v < 52 then ('a' as int + v - 26) as char
    else if v < 62 then ('0' as int + v - 52) as char
    else if v == 62 then '+' else '/'
  }

  function LetterValue(c: char): Option<int> {
    if 'A' <= c <= 'Z' then Some(c as int - 'A' as int)
    else if 'a' <= c <= 'z' then Some(c as int - 'a' as int + 26)
    else if '0' <= c <= '9' then Some(c as int - '0' as int + 52)
    else if c == '+' then Some(62)
    else if c == '/' then Some(63)
    else None
  }

  lemma LetterRoundTrip(v: int)
    requires 0 <= v < 64
    ensures LetterValue(Letter(v)) == Some(v) && Letter(v) != '='
  {
  }

  function Quad(a: Byte, b: Byte, c: Byte): string {
    [Letter(a / 4), Letter(a % 4 * 16 + b / 16), Letter(b % 16 * 4 + c / 64), Letter(c % 64)]
  }

  function Encode64(s: seq<Byte>): string {
    if s == [] then ""
    else if |s| == 1 then Quad(s[0], 0, 0)[..2] + "=="
    else if |s| == 2 then Quad(s[0], s[1], 0)[..3] + "="
    else Quad(s[0], s[1], s[2]) + Encode64(s[3..])
  }

  type Sextet = v: int | 0 <= v < 64

  /** The values of four letters, padding read as zero. */
  function QuadValues(t: string): Option<(Sextet, Sextet, Sextet, Sextet)>
    requires |t| >= 4
  {
    var v0, v1 := LetterValue(t[0]), LetterValue(t[1]);
    var v2 := if t[2] == '=' && t[3] == '=' then Some(0) else LetterValue(t[2]);
    var v3 := if t[3] == '=' then Some(0) else LetterValue(t[3]);
    if v0.None? || v1.None? || v2.None? || v3.None? then None else Some((v0.value, v1.value, v2.value, v3.value))
  }

  function QuadBytes(v: (Sextet, Sextet, Sextet, Sextet)): seq<Byte> {
    [v.0 * 4 + v.1 / 16, v.1 % 16 * 16 + v.2 / 4, v.2 % 4 * 64 + v.3]
  }

  function Decode64(t: string): Option<seq<Byte>> {
    if t == "" then Some([])
    else if |t| < 4 || (t[3] == '=' && |t| != 4) || QuadValues(t).None? then None
    else
      var bytes := QuadBytes(QuadValues(t).value);
      if t[3] == '=' then Some(if t[2] == '=' then bytes[..1] else bytes[..2])
      else
        var rest := Decode64(t[4..]);
        if rest.None? then None else Some(bytes + rest.value)
  }

  lemma QuadRoundTrip(a: Byte, b: Byte, c: Byte)
    ensures QuadValues(Quad(a, b, c)) == Some((a / 4, a % 4 * 16 + b / 16, b % 16 * 4 + c / 64, c % 64))
    ensures '=' !in Quad(a, b, c)
  {
    LetterRoundTrip(a / 4);
    LetterRoundTrip(a % 4 * 16 + b / 16);
    LetterRoundTrip(b % 16 * 4 + c / 64);
    LetterRoundTrip(c % 64);
  }

  lemma QuadBytesRoundTrip(a: Byte, b: Byte, c: Byte)
    ensures QuadBytes((a / 4, a % 4 * 16 + b / 16, b % 16 * 4 + c / 64, c % 64)) == [a, b, c]
  {
  }

  /** Padding reads as the zero it stands for. */
  lemma PaddedReads(t: string, padded: string)
    requires |t| == |padded| == 4 && '=' !in t && t[..2] == padded[..2] && padded[3] == '=' && LetterValue(t[3]) == Some(0)
    requires t[2] == padded[2] || (padded[2] == '=' && LetterValue(t[2]) == Some(0))
    ensures QuadValues(padded) == QuadValues(t)
  {
    assert t[0] == t[..2][0] && t[1] == t[..2][1] && padded[0] == padded[..2][0] && padded[1] == padded[..2][1];
  }

  lemma DecodesQuad(a: Byte, b: Byte, c: Byte, t: string)
    ensures Decode64(Quad(a, b, c) + t) == if Decode64(t).None? then None else Some([a, b, c] + Decode64(t).value)
  {
    var s := Quad(a, b, c) + t;
    QuadRoundTrip(a, b, c);
    QuadBytesRoundTrip(a, b, c);
    assert s[4..] == t && s[3] == Quad(a, b, c)[3];
    assert QuadValues(s) == QuadValues(Quad(a, b, c));
  }

  lemma DecodesOne(a: Byte)
    ensures Decode64(Quad(a, 0, 0)[..2] + "==") == Some([a])
  {
    QuadRoundTrip(a, 0, 0);
    QuadBytesRoundTrip(a, 0, 0);
    PaddedReads(Quad(a, 0, 0), Quad(a, 0, 0)[..2] + "==");
    assert [a, 0, 0][..1] == [a];
  }

  lemma DecodesTwo(a: Byte, b: Byte)
    ensures Decode64(Quad(a, b, 0)[..3] + "=") == Some([a, b])
  {
    QuadRoundTrip(a, b, 0);
    QuadBytesRoundTrip(a, b, 0);
    var padded := Quad(a, b, 0)[..3] + "=";
    PaddedReads(Quad(a, b, 0), padded);
    assert padded[2] == Quad(a, b, 0)[2] != '=';
    assert [a, b, 0][..2] == [a, b];
  }

  lemma ShortRoundTrip(s: seq<Byte>)
    requires |s| < 3
    ensures Decode64(Encode64(s)) == Some(s)
  {
    if |s| == 1 {
      DecodesOne(s[0]);
      assert s == [s[0]];
    } else if |s| == 2 {
      DecodesTwo(s[0], s[1]);
      assert s == [s[0], s[1]];
    }
  }

  lemma QuadFirst(a: Byte, b: Byte, c: Byte, rest: seq<Byte>)
    requires Decode64(Encode64(rest)) == Some(rest)
    ensures Decode64(Encode64([a, b, c] + rest)) == Some([a, b, c] + rest)
  {
    assert ([a, b, c] + rest)[3..] == rest;
    DecodesQuad(a, b, c, Encode64(rest));
  }

  lemma {:induction false} Base64RoundTrip(s: seq<Byte>)
    ensures Decode64(Encode64(s)) == Some(s)
  {
    if |s| < 3 {
      ShortRoundTrip(s);
    } else {
      Base64RoundTrip(s[3..]);
      QuadFirst(s[0], s[1], s[2], s[3..]);
      assert s == [s[0], s[1], s[2]] + s[3..];
    }
  }

  // ---- the header ----

  function Header(id: seq<Byte>, secret: seq<Byte>): string {
    "Basic " + Encode64(EncodeComponent(id) + [COLON] + EncodeComponent(secret))
  }

  /** The bytes before the first `:` and those after it. */
  function SplitPair(t: seq<Byte>): Option<(seq<Byte>, seq<Byte>)> {
    if t == [] then None
    else if t[0] == COLON then Some(([], t[1..]))
    else
      var rest := SplitPair(t[1..]);
      if rest.None? then None else Some(([t[0]] + rest.value.0, rest.value.1))
  }

  /** What a provider reads from the header. */
  function ReadHeader(header: string): Option<(seq<Byte>, seq<Byte>)> {
    if !("Basic " <= header) then None
    else
      var text := Decode64(header[|"Basic "|..]);
      var pair := if text.None? then None else SplitPair(text.value);
      if pair.None? then None
      else
        var id, secret := FormDecode(pair.value.0), FormDecode(pair.value.1);
        if id.None? || secret.None? then None else Some((id.value, secret.value))
  }

  lemma {:induction false} SplitsAtTheColon(a: seq<Byte>, b: seq<Byte>)
    requires COLON !in a
    ensures SplitPair(a + [COLON] + b) == Some((a, b))
  {
    var t := a + [COLON] + b;
    if a == [] {
      assert t[1..] == b;
    } else {
      assert t[1..] == a[1..] + [COLON] + b;
      SplitsAtTheColon(a[1..], b);
      assert a == [a[0]] + a[1..];
    }
  }

  /** Whatever bytes the identifier and the secret are, the provider reads exactly that pair. */
  lemma HeaderRoundTrip(id: seq<Byte>, secret: seq<Byte>)
    ensures ReadHeader(Header(id, secret)) == Some((id, secret))
  {
    ComponentRoundTrip(id);
    ComponentRoundTrip(secret);
    SplitsAtTheColon(EncodeComponent(id), EncodeComponent(secret));
    Base64RoundTrip(EncodeComponent(id) + [COLON] + EncodeComponent(secret));
    assert Header(id, secret)[|"Basic "|..] == Encode64(EncodeComponent(id) + [COLON] + EncodeComponent(secret));
  }

  lemma {:induction false} FirstHalfHasNoColon(t: seq<Byte>)
    ensures SplitPair(t).Some? ==> COLON !in SplitPair(t).value.0
  {
    if t != [] {
      FirstHalfHasNoColon(t[1..]);
    }
  }

  /** Joined without encoding each half first, a pair is read back exactly when its identifier holds no `:`. */
  lemma UnencodedPairNeedsNoColon(id: seq<Byte>, secret: seq<Byte>)
    ensures SplitPair(id + [COLON] + secret) == Some((id, secret)) <==> COLON !in id
  {
    if COLON !in id {
      SplitsAtTheColon(id, secret);
    }
    FirstHalfHasNoColon(id + [COLON] + secret);
  }
}
