/**
 * The text hashed for a cache key: `JSON.stringify` of an array of strings and
 * nulls, read back by a reader, so that no field's text can shift into its
 * neighbour's. SHA-256 itself is idealised as an injective digest.
 */
module CacheKey {
  import opened Wrappers

  /** A UTF-16 code unit, and a JavaScript string: any sequence of them, lone surrogates included. */
  type Unit = x: int | 0 <= x < 0x1_0000
  type Text = seq<Unit>

  const QUOTE: Unit := 0x22
  const BACKSLASH: Unit := 0x5c
  const COMMA: Unit := 0x2c
  const OPEN: Unit := 0x5b
  const CLOSE: Unit := 0x5d
  const LETTER_U: Unit := 0x75
  const NULL: Text := [0x6e, 0x75, 0x6c, 0x6c]

  predicate HighSurrogate(c: Unit) { 0xd800 <= c < 0xdc00 }

  predicate LowSurrogate(c: Unit) { 0xdc00 <= c < 0xe000 }

  function HexDigit(n: int): Unit
    requires 0 <= n < 16
  {
    if n < 10 then 0x30 + n else 0x57 + n
  }

  function HexValue(c: Unit): (r: Option<int>)
    ensures r.Some? ==> 0 <= r.value < 16
  {
    if 0x30 <= c <= 0x39 then Some(c - 0x30)
    else if 0x61 <= c <= 0x66 then Some(c - 0x57)
    else None
  }

  /** Four lower-case hexadecimal digits. */
  function Hex4(c: Unit): (r: Text)
    ensures |r| == 4
  {
    [HexDigit(c / 16 / 16 / 16), HexDigit(c / 16 / 16 % 16), HexDigit(c / 16 % 16), HexDigit(c % 16)]
  }

  function ReadHex4(t: Text): Option<Unit>
    requires |t| == 4
  {
    var a, b, c, d := HexValue(t[0]), HexValue(t[1]), HexValue(t[2]), HexValue(t[3]);
    if a.Some? && b.Some? && c.Some? && d.Some?
    then Some(((a.value * 16 + b.value) * 16 + c.value) * 16 + d.value)
    else None
  }

  lemma DigitRoundTrip(n: int)
    requires 0 <= n < 16
    ensures HexValue(HexDigit(n)) == Some(n)
  {
  }

  lemma Hex4RoundTrip(c: Unit)
    ensures ReadHex4(Hex4(c)) == Some(c)
  {
    DigitRoundTrip(c / 16 / 16 / 16);
    DigitRoundTrip(c / 16 / 16 % 16);
    DigitRoundTrip(c / 16 % 16);
    DigitRoundTrip(c % 16);
  }

  /** The letter of a two-character escape, for the units that have one. */
  function ShortEscape(c: Unit): Option<Unit> {
    if c == QUOTE || c == BACKSLASH then Some(c)
    else if c == 8 then Some(0x62)
    else if c == 9 then Some(0x74)
    else if c == 10 then Some(0x6e)
    else if c == 12 then Some(0x66)
    else if c == 13 then Some(0x72)
    else None
  }

  function Escape(c: Unit): Text {
    var short := ShortEscape(c);
    if short.Some? then [BACKSLASH, short.value]
    else if c < 0x20 || HighSurrogate(c) || LowSurrogate(c) then
      [BACKSLASH, LETTER_U] + Hex4(c)
    else [c]
  }

  /** A string's characters as `JSON.stringify` writes them: a surrogate pair as it is, a lone one escaped. */
  function Escaped(s: Text): Text {
    if s == [] then []
    else if HighSurrogate(s[0]) && |s| > 1 && LowSurrogate(s[1]) then s[..2] + Escaped(s[2..])
    else Escape(s[0]) + Escaped(s[1..])
  }

  /**
   * What is escaped, and how, is what `JSON.stringify` does: a unit as itself
   * unless it is a double quote, a backslash, a control or a lone surrogate;
   * two characters for the seven units that have a short escape; and else `\u`
   * and four small hexadecimal digits.
   */
  lemma EscapesAsStringify(c: Unit)
    ensures Escape(c) == [c] <==> c >= 0x20 && c != 0x22 && c != 0x5c && !(0xd800 <= c < 0xe000)
    ensures |Escape(c)| == 2 <==> c in {0x08, 0x09, 0x0a, 0x0c, 0x0d, 0x22, 0x5c}
    ensures |Escape(c)| in {1, 2, 6} && (|Escape(c)| > 1 ==> Escape(c)[0] == 0x5c)
    ensures |Escape(c)| == 6 ==>
              Escape(c)[1] == 0x75 && forall i | 2 <= i < 6 :: 0x30 <= Escape(c)[i] <= 0x39 || 0x61 <= Escape(c)[i] <= 0x66
  {
  }

  function FieldText(field: Option<Text>): Text {
    match field
    case None => NULL
    case Some(s) => [QUOTE] + Escaped(s) + [QUOTE]
  }

  /** The fields, each with its separator, and the closing bracket. */
  function FieldsText(fields: seq<Option<Text>>): Text
    requires fields != []
  {
    if |fields| == 1 then FieldText(fields[0]) + [CLOSE]
    else FieldText(fields[0]) + ([COMMA] + FieldsText(fields[1..]))
  }

  function ArrayText(fields: seq<Option<Text>>): Text
    requires fields != []
  {
    [OPEN] + FieldsText(fields)
  }

  /** The punctuation, to the letter: a null, an empty string and one of a single letter. */
  lemma PunctuatesAsJson()
    ensures ArrayText([None, Some([]), Some([0x61])]) == [0x5b, 0x6e, 0x75, 0x6c, 0x6c, 0x2c, 0x22, 0x22, 0x2c, 0x22, 0x61, 0x22, 0x5d]
  {
    var a: seq<Option<Text>> := [Some([0x61])];
    var b: seq<Option<Text>> := [Some([])] + a;
    assert [None, Some([]), Some([0x61])] == [None] + b;
    assert ([None] + b)[1..] == b && b[1..] == a;
    assert Escaped([0x61]) == [0x61] by { assert [0x61][1..] == []; }
    assert FieldsText(a) == [0x22, 0x61, 0x22, 0x5d];
    assert FieldsText(b) == [0x22, 0x22] + ([0x2c] + FieldsText(a));
    assert FieldsText([None] + b) == [0x6e, 0x75, 0x6c, 0x6c] + ([0x2c] + FieldsText(b));
  }

  // ---- a reader of such texts, per section 7 of RFC 8259 ----

  function Unescaped(letter: Unit): Option<Unit> {
    if letter == QUOTE || letter == BACKSLASH then Some(letter)
    else if letter == 0x62 then Some(8)
    else if letter == 0x74 then Some(9)
    else if letter == 0x6e then Some(10)
    else if letter == 0x66 then Some(12)
    else if letter == 0x72 then Some(13)
    else None
  }

  /** The unit at the front of a string's characters, and what follows it. */
  function ReadUnit(t: Text): (r: Option<(Unit, Text)>)
    ensures r.Some? ==> |r.value.1| < |t|
  {
    if t == [] || t[0] == QUOTE then None
    else if t[0] != BACKSLASH then Some((t[0], t[1..]))
    else if |t| < 2 then None
    else if t[1] != LETTER_U then
      (var c := Unescaped(t[1]);
       if c.Some? then Some((c.value, t[2..])) else None)
    else if |t| < 6 then None
    else
      var c := ReadHex4(t[2..6]);
      if c.Some? then Some((c.value, t[6..])) else None
  }

  /** The characters up to the closing quote, and what follows it. */
  function ReadString(t: Text): (r: Option<(Text, Text)>)
    ensures r.Some? ==> |r.value.1| < |t|
    decreases |t|
  {
    if t != [] && t[0] == QUOTE then Some(([], t[1..]))
    else
      var unit := ReadUnit(t);
      if unit.None? then None
      else
        var tail := ReadString(unit.value.1);
        if tail.None? then None else Some(([unit.value.0] + tail.value.0, tail.value.1))
  }

  function ReadField(t: Text): (r: Option<(Option<Text>, Text)>)
    ensures r.Some? ==> |r.value.1| < |t|
  {
    if t == [] then None
    else if t[0] == QUOTE then
      (var s := ReadString(t[1..]);
       if s.None? then None else Some((Some(s.value.0), s.value.1)))
    else if |t| >= 4 && t[..4] == NULL then Some((None, t[4..]))
    else None
  }

  function ReadFields(t: Text): Option<seq<Option<Text>>>
    decreases |t|
  {
    var field := ReadField(t);
    if field.None? || field.value.1 == [] then None
    else if field.value.1[0] == CLOSE then (if |field.value.1| == 1 then Some([field.value.0]) else None)
    else if field.value.1[0] != COMMA then None
    else
      var rest := ReadFields(field.value.1[1..]);
      if rest.None? then None else Some([field.value.0] + rest.value)
  }

  function ReadArray(t: Text): Option<seq<Option<Text>>> {
    if t != [] && t[0] == OPEN then ReadFields(t[1..]) else None
  }

  // ---- what is written is read back ----

  lemma ReadEscape(c: Unit, rest: Text)
    ensures ReadUnit(Escape(c) + rest) == Some((c, rest))
  {
    var t := Escape(c) + rest;
    if ShortEscape(c).Some? {
      assert t[2..] == rest;
    } else if c < 0x20 || HighSurrogate(c) || LowSurrogate(c) {
      Hex4RoundTrip(c);
      assert t[2..6] == Hex4(c) && t[6..] == rest;
    } else {
      assert t[1..] == rest;
    }
  }

  /** A string reads one unit at a time. */
  lemma ReadOneMore(written: Text, c: Unit, t: Text)
    requires ReadUnit(written + t) == Some((c, t))
    ensures ReadString(written + t)
         == var tail := ReadString(t); if tail.None? then None else Some(([c] + tail.value.0, tail.value.1))
  {
  }

  lemma ReadRaw(c: Unit, t: Text)
    requires c != QUOTE && c != BACKSLASH
    ensures ReadString([c] + t)
         == var tail := ReadString(t); if tail.None? then None else Some(([c] + tail.value.0, tail.value.1))
  {
    assert ([c] + t)[1..] == t;
    ReadOneMore([c], c, t);
  }

  lemma EscapedPair(s: Text, after: Text)
    requires |s| > 1 && HighSurrogate(s[0]) && LowSurrogate(s[1])
    ensures Escaped(s) + after == [s[0]] + ([s[1]] + (Escaped(s[2..]) + after))
  {
    assert s[..2] == [s[0], s[1]];
    TwoThen(s[0], s[1], Escaped(s[2..]), after);
  }

  lemma TwoThen(a: Unit, b: Unit, t: Text, after: Text)
    ensures [a, b] + t + after == [a] + ([b] + (t + after))
  {
  }

  lemma EscapedOne(s: Text, after: Text)
    requires s != [] && !(HighSurrogate(s[0]) && |s| > 1 && LowSurrogate(s[1]))
    ensures Escaped(s) + after == Escape(s[0]) + (Escaped(s[1..]) + after)
  {
    Regroup(Escape(s[0]), Escaped(s[1..]), after);
  }

  lemma Regroup(a: Text, b: Text, c: Text)
    ensures (a + b) + c == a + (b + c)
  {
  }

  lemma ReadNothing(rest: Text)
    ensures ReadString(Escaped([]) + ([QUOTE] + rest)) == Some(([], rest))
  {
    assert Escaped([]) + ([QUOTE] + rest) == [QUOTE] + rest;
    assert ([QUOTE] + rest)[1..] == rest;
  }

  lemma PairStep(s: Text, after: Text, rest: Text)
    requires |s| > 1 && HighSurrogate(s[0]) && LowSurrogate(s[1])
    requires ReadString(Escaped(s[2..]) + after) == Some((s[2..], rest))
    ensures ReadString(Escaped(s) + after) == Some((s, rest))
  {
    EscapedPair(s, after);
    ReadPair(s[0], s[1], Escaped(s[2..]) + after, s[2..], rest);
    assert s == [s[0]] + ([s[1]] + s[2..]);
  }

  lemma OneStep(s: Text, after: Text, rest: Text)
    requires s != [] && !(HighSurrogate(s[0]) && |s| > 1 && LowSurrogate(s[1]))
    requires ReadString(Escaped(s[1..]) + after) == Some((s[1..], rest))
    ensures ReadString(Escaped(s) + after) == Some((s, rest))
  {
    EscapedOne(s, after);
    ReadOne(s[0], Escaped(s[1..]) + after, s[1..], rest);
    assert s == [s[0]] + s[1..];
  }

  lemma {:induction false} ReadEscaped(s: Text, rest: Text)
    ensures ReadString(Escaped(s) + ([QUOTE] + rest)) == Some((s, rest))
    decreases |s|
  {
    if s == [] {
      ReadNothing(rest);
    } else if HighSurrogate(s[0]) && |s| > 1 && LowSurrogate(s[1]) {
      ReadEscaped(s[2..], rest);
      PairStep(s, [QUOTE] + rest, rest);
    } else {
      ReadEscaped(s[1..], rest);
      OneStep(s, [QUOTE] + rest, rest);
    }
  }

  lemma ReadOne(c: Unit, t: Text, s: Text, rest: Text)
    requires ReadString(t) == Some((s, rest))
    ensures ReadString(Escape(c) + t) == Some(([c] + s, rest))
  {
    ReadEscape(c, t);
    ReadOneMore(Escape(c), c, t);
  }

  lemma ReadPair(a: Unit, b: Unit, t: Text, s: Text, rest: Text)
    requires HighSurrogate(a) && LowSurrogate(b) && ReadString(t) == Some((s, rest))
    ensures ReadString([a] + ([b] + t)) == Some(([a] + ([b] + s), rest))
  {
    ReadRaw(b, t);
    ReadRaw(a, [b] + t);
  }

  lemma ReadNull(rest: Text)
    ensures ReadField(NULL + rest) == Some((None, rest))
  {
    var t := NULL + rest;
    assert t[0] != QUOTE && t[..4] == NULL && t[4..] == rest;
  }

  lemma ReadQuoted(s: Text, rest: Text)
    ensures ReadField([QUOTE] + Escaped(s) + [QUOTE] + rest) == Some((Some(s), rest))
  {
    var t := [QUOTE] + Escaped(s) + [QUOTE] + rest;
    assert t[0] == QUOTE && t[1..] == Escaped(s) + ([QUOTE] + rest);
    ReadEscaped(s, rest);
  }

  lemma ReadFieldText(field: Option<Text>, rest: Text)
    ensures ReadField(FieldText(field) + rest) == Some((field, rest))
  {
    if field.Some? {
      ReadQuoted(field.value, rest);
    } else {
      ReadNull(rest);
    }
  }

  lemma {:induction false} ReadFieldsText(fields: seq<Option<Text>>)
    requires fields != []
    ensures ReadFields(FieldsText(fields)) == Some(fields)
  {
    if |fields| == 1 {
      ReadFieldText(fields[0], [CLOSE]);
      assert fields == [fields[0]];
    } else {
      var rest := [COMMA] + FieldsText(fields[1..]);
      ReadFieldText(fields[0], rest);
      ReadFieldsText(fields[1..]);
      assert rest[1..] == FieldsText(fields[1..]);
      assert fields == [fields[0]] + fields[1..];
    }
  }

  /** Whatever the fields hold, the array text reads back as exactly them. */
  lemma ArrayRoundTrip(fields: seq<Option<Text>>)
    requires fields != []
    ensures ReadArray(ArrayText(fields)) == Some(fields)
  {
    ReadFieldsText(fields);
    assert ArrayText(fields)[1..] == FieldsText(fields);
  }

  // ---- strings of whole characters, and the digest ----

  /** A string of Unicode characters as the code units JavaScript keeps. */
  function Utf16(s: string): Text {
    if s == [] then []
    else
      var c := s[0] as int;
      (if c < 0x1_0000 then [c] else [0xd800 + (c - 0x1_0000) / 0x400, 0xdc00 + (c - 0x1_0000) % 0x400])
      + Utf16(s[1..])
  }

  /** A character past the first plane is the surrogate pair that stands for it. */
  lemma Utf16IsPairs(c: char)
    ensures c as int < 0x1_0000 ==> Utf16([c]) == [c as int]
    ensures c as int >= 0x1_0000 ==>
              && |Utf16([c])| == 2 && HighSurrogate(Utf16([c])[0]) && LowSurrogate(Utf16([c])[1])
              && var high: int, low: int := Utf16([c])[0], Utf16([c])[1];
              && (high - 0xd800) * 0x400 + (low - 0xdc00) + 0x1_0000 == c as int
  {
    assert [c][1..] == [];
  }

  lemma {:induction false} Utf16Injective(a: string, b: string)
    requires Utf16(a) == Utf16(b)
    ensures a == b
  {
    if a != [] && b != [] {
      var x, y := Utf16(a), Utf16(b);
      assert x[0] == y[0];
      if (a[0] as int) < 0x1_0000 {
        assert x[1..] == Utf16(a[1..]) && y[1..] == Utf16(b[1..]);
      } else {
        assert x[1] == y[1];
        assert x[2..] == Utf16(a[1..]) && y[2..] == Utf16(b[1..]);
      }
      Utf16Injective(a[1..], b[1..]);
    }
  }

  /** Stands for SHA-256 in hexadecimal, idealised as injective: every unit in four hex digits. */
  function Digest(t: Text): string {
    if t == [] then ""
    else
      var h := Hex4(t[0]);
      [Letter(h[0]), Letter(h[1]), Letter(h[2]), Letter(h[3])] + Digest(t[1..])
  }

  function Letter(c: Unit): char {
    if c < 0xd800 then c as char else '?'
  }

  lemma Hex4LettersInjective(a: Unit, b: Unit)
    requires var g, h := Hex4(a), Hex4(b); forall i | 0 <= i < 4 :: Letter(g[i]) == Letter(h[i])
    ensures a == b
  {
    var g, h := Hex4(a), Hex4(b);
    assert forall i | 0 <= i < 4 :: g[i] < 0x80 && h[i] < 0x80;
    assert Letter(g[0]) == Letter(h[0]) && Letter(g[1]) == Letter(h[1]);
    assert Letter(g[2]) == Letter(h[2]) && Letter(g[3]) == Letter(h[3]);
    assert g == h;
    Hex4RoundTrip(a);
    Hex4RoundTrip(b);
  }

  lemma {:induction false} DigestInjective(a: Text, b: Text)
    requires Digest(a) == Digest(b)
    ensures a == b
  {
    if a != [] && b != [] {
      var x, y := Digest(a), Digest(b);
      assert x[0] == y[0] && x[1] == y[1] && x[2] == y[2] && x[3] == y[3];
      Hex4LettersInjective(a[0], b[0]);
      assert x[4..] == Digest(a[1..]) && y[4..] == Digest(b[1..]);
      DigestInjective(a[1..], b[1..]);
    }
  }

  // ---- what the two paths ask, and the key for it ----

  /** How the session grant's client authenticates, by what names its key without revealing it. */
  datatype ClientAuth =
    | Public
    | PrivateKey(issuer: Option<string>, thumbprint: string, kid: Option<string>, alg: string)

  /** Everything besides the cookie value that the session grant asks with. */
  datatype GrantContext =
    GrantContext(tokenUrl: string, clientId: string, scope: string, cookieName: string, auth: ClientAuth)

  /** Everything besides the assertion that changes what an exchange is issued. */
  datatype ExchangeContext =
    ExchangeContext(tokenEndpoint: string, clientId: string, scope: Option<string>,
                    audience: Option<string>, resource: Option<string>)

  /** What a request has the proxy ask the provider. */
  datatype Question =
    | Session(grant: GrantContext, cookie: string)
    | Exchange(exchange: ExchangeContext, assertion: string)

  const SESSION_GRANT_TYPE := "session"
  const JWT_BEARER_GRANT_TYPE := "urn:ietf:params:oauth:grant-type:jwt-bearer"

  /** The array hashed for a question, in the order each path lists its fields. */
  function Fields(q: Question): seq<Option<string>> {
    match q
    case Session(g, cookie) =>
      [Some(SESSION_GRANT_TYPE), Some(g.tokenUrl), Some(g.clientId), Some(g.scope), Some(g.cookieName),
       Some(if g.auth.PrivateKey? then "private_key_jwt" else "none"),
       if g.auth.PrivateKey? then g.auth.issuer else None,
       if g.auth.PrivateKey? then Some(g.auth.thumbprint) else None,
       if g.auth.PrivateKey? then g.auth.kid else None,
       if g.auth.PrivateKey? then Some(g.auth.alg) else None,
       Some(cookie)]
    case Exchange(e, assertion) =>
      [Some(JWT_BEARER_GRANT_TYPE), Some(e.tokenEndpoint), Some(e.clientId), e.scope, e.audience, e.resource,
       Some(assertion)]
  }

  function AsText(field: Option<string>): Option<Text> {
    if field.None? then None else Some(Utf16(field.value))
  }

  function Texts(fields: seq<Option<string>>): (r: seq<Option<Text>>)
    ensures |r| == |fields|
    ensures forall i | 0 <= i < |fields| :: r[i] == AsText(fields[i])
  {
    if fields == [] then [] else [AsText(fields[0])] + Texts(fields[1..])
  }

  function HashOf(fields: seq<Option<string>>): string
    requires fields != []
  {
    Digest(ArrayText(Texts(fields)))
  }

  function KeyOf(q: Question): string {
    HashOf(Fields(q))
  }

  lemma FieldsInjective(p: Question, q: Question)
    requires Fields(p) == Fields(q)
    ensures p == q
  {
    var f, g := Fields(p), Fields(q);
    assert |f| == |g|;
    assert forall i | 0 <= i < |f| :: f[i] == g[i];
    match (p, q) {
      case (Session(a, c), Session(b, d)) =>
        assert f[1] == g[1] && f[2] == g[2] && f[3] == g[3] && f[4] == g[4] && f[10] == g[10];
        assert f[6] == g[6] && f[7] == g[7] && f[8] == g[8] && f[9] == g[9];
      case (Exchange(a, c), Exchange(b, d)) =>
        assert f[1] == g[1] && f[2] == g[2] && f[3] == g[3] && f[4] == g[4] && f[5] == g[5] && f[6] == g[6];
      case _ =>
        assert false;
    }
  }

  lemma ArraysAreUnambiguous(f: seq<Option<string>>, g: seq<Option<string>>)
    requires f != [] && g != [] && HashOf(f) == HashOf(g)
    ensures f == g
  {
    DigestInjective(ArrayText(Texts(f)), ArrayText(Texts(g)));
    ArrayRoundTrip(Texts(f));
    ArrayRoundTrip(Texts(g));
    assert Texts(f) == Texts(g);
    forall i | 0 <= i < |f| ensures f[i] == g[i] {
      assert AsText(f[i]) == Texts(f)[i] == Texts(g)[i] == AsText(g[i]);
      if f[i].Some? && g[i].Some? {
        Utf16Injective(f[i].value, g[i].value);
      }
    }
  }

  /** Two questions share a key exactly when they are the same question: same path, same context, same credential. */
  lemma KeysAreUnambiguous(p: Question, q: Question)
    ensures KeyOf(p) == KeyOf(q) <==> p == q
  {
    var f, g := Fields(p), Fields(q);
    if HashOf(f) == HashOf(g) {
      ArraysAreUnambiguous(f, g);
      FieldsInjective(p, q);
    }
  }
}
