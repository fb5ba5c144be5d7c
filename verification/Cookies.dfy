/**
 * The `Cookie` header grammar injection mode reads with: the session cookie's
 * value, and the header with the session cookie removed.
 */
module Cookies {
  import opened Wrappers
  import opened Text

  /** SP and HTAB, the only slack around a pair or its name. */
  predicate Ows(c: char) { c == ' ' || c == '\t' }

  function TrimOws(s: string): string { Trim(s, Ows) }

  datatype Reason = Empty | Quoting | Grammar

  datatype Extraction =
    | Absent
    | Rejected(reason: Reason)
    | Found(value: string, skipped: Option<Reason>)

  /** `cookie-octet` of section 4.1.1 of RFC 6265. */
  predicate CookieOctet(c: char) {
    c == '!' || '#' <= c <= '+' || '-' <= c <= ':' || '<' <= c <= '[' || ']' <= c <= '~'
  }

  /** That is: visible US-ASCII, but for the double quote, the comma, the semicolon and the backslash. */
  lemma OctetsAreVisibleAscii(c: char)
    ensures CookieOctet(c) <==> 0x20 < c as int < 0x7f && c !in {'"', ',', ';', '\\'}
  {
  }

  predicate CookieOctets(s: string) {
    forall c | c in s :: CookieOctet(c)
  }

  function ClassifyValue(value: string): (r: Extraction)
    ensures !r.Absent?
    ensures r.Found? ==> r.value == value && r.skipped == None
  {
    if value == "" || value == ['"', '"'] then Rejected(Empty)
    else
      var wrapped := |value| >= 2 && value[0] == '"' && value[|value| - 1] == '"';
      var interior := if wrapped then value[1..|value| - 1] else value;
      if '"' in interior then Rejected(Quoting)
      else if !CookieOctets(interior) then Rejected(Grammar)
      else Found(value, None)
  }

  /** `cookie-value` of section 4.1.1 of RFC 6265: octets, bare or in one pair of double quotes. */
  ghost predicate CookieValue(v: string) {
    CookieOctets(v) || exists octets :: CookieOctets(octets) && v == ['"'] + octets + ['"']
  }

  predicate Wrapped(v: string) {
    |v| >= 2 && v[0] == '"' && v[|v| - 1] == '"'
  }

  /** A value in double quotes is a `cookie-value` by its interior alone. */
  lemma WrappedCookieValue(v: string)
    requires Wrapped(v)
    ensures CookieValue(v) <==> CookieOctets(v[1..|v| - 1])
  {
    var interior := v[1..|v| - 1];
    assert v == ['"'] + interior + ['"'];
    forall octets | v == ['"'] + octets + ['"'] ensures octets == interior {
      assert octets == v[1..|v| - 1];
    }
    assert v[0] in v && !CookieOctets(v);
  }

  lemma BareCookieValue(v: string)
    requires !Wrapped(v)
    ensures CookieValue(v) <==> CookieOctets(v)
  {
    forall octets ensures v != ['"'] + octets + ['"'] {
      var quoted := ['"'] + octets + ['"'];
      assert |quoted| >= 2 && quoted[0] == '"' && quoted[|quoted| - 1] == '"';
    }
  }

  /** What is accepted is exactly a `cookie-value` with something in it. */
  lemma AcceptsExactlyCookieValues(v: string)
    ensures ClassifyValue(v).Found? <==> CookieValue(v) && v != "" && v != ['"', '"']
  {
    if Wrapped(v) {
      WrappedCookieValue(v);
    } else {
      BareCookieValue(v);
    }
  }

  /** Which reason a refused value is told: in this order, nothing in it, a double quote out of place, another character. */
  lemma RejectsForItsReason(v: string)
    ensures ClassifyValue(v) == Rejected(Empty) <==> v == "" || v == ['"', '"']
    ensures ClassifyValue(v) == Rejected(Quoting) <==>
            v != "" && v != ['"', '"']
            && exists i :: 0 <= i < |v| && v[i] == '"' && !(Wrapped(v) && (i == 0 || i == |v| - 1))
    ensures ClassifyValue(v) == Rejected(Grammar) <==>
            (forall i | 0 <= i < |v| && v[i] == '"' :: Wrapped(v) && (i == 0 || i == |v| - 1))
            && exists i :: 0 <= i < |v| && v[i] != '"' && !CookieOctet(v[i])
  {
    QuotesInside(v);
    OthersInside(v);
  }

  function Interior(v: string): string {
    if Wrapped(v) then v[1..|v| - 1] else v
  }

  lemma QuotesInside(v: string)
    ensures '"' in Interior(v) <==>
            exists i :: 0 <= i < |v| && v[i] == '"' && !(Wrapped(v) && (i == 0 || i == |v| - 1))
  {
    var interior, k := Interior(v), if Wrapped(v) then 1 else 0;
    assert forall i | 0 <= i < |interior| :: interior[i] == v[i + k];
    if '"' in interior {
      var i :| 0 <= i < |interior| && interior[i] == '"';
      assert v[i + k] == '"';
    }
    if i :| 0 <= i < |v| && v[i] == '"' && !(Wrapped(v) && (i == 0 || i == |v| - 1)) {
      assert interior[i - k] == '"';
    }
  }

  lemma OthersInside(v: string)
    ensures '"' !in Interior(v) ==>
              (CookieOctets(Interior(v)) <==> forall i | 0 <= i < |v| && v[i] != '"' :: CookieOctet(v[i]))
  {
    var interior, k := Interior(v), if Wrapped(v) then 1 else 0;
    assert forall i | 0 <= i < |interior| :: interior[i] == v[i + k];
    if c :| c in interior && !CookieOctet(c) {
      var i :| 0 <= i < |interior| && interior[i] == c;
      assert v[i + k] == c;
    }
    if i :| 0 <= i < |v| && v[i] != '"' && !CookieOctet(v[i]) {
      assert interior[i - k] == v[i];
    }
  }

  // ---- the header as its segments ----

  function Segments(header: string): seq<string> {
    Trims(Split(header, ';'), Ows)
  }

  /** A segment's cookie name, if it is a pair at all. */
  function NameOf(segment: string): Option<string> {
    var eq := IndexOf(segment, '=');
    if eq == -1 then None else Some(TrimOws(segment[..eq]))
  }

  function ValueOf(segment: string): string
    requires NameOf(segment).Some?
  {
    segment[IndexOf(segment, '=') + 1..]
  }

  /** The values of every pair with the name, in order. */
  function Values(segments: seq<string>, name: string): seq<string> {
    if segments == [] then []
    else if NameOf(segments[0]) == Some(name) then [ValueOf(segments[0])] + Values(segments[1..], name)
    else Values(segments[1..], name)
  }

  /** The scan over the segments, with the first reason it has skipped. */
  function Scan(segments: seq<string>, name: string, skipped: Option<Reason>): Extraction {
    if segments == [] then (if skipped.None? then Absent else Rejected(skipped.value))
    else if NameOf(segments[0]) != Some(name) then Scan(segments[1..], name, skipped)
    else
      var classified := ClassifyValue(ValueOf(segments[0]));
      if classified.Found? then Found(classified.value, skipped)
      else Scan(segments[1..], name, if skipped.None? then Some(classified.reason) else skipped)
  }

  function Extract(header: Option<string>, name: string): Extraction {
    if header.None? || header.value == "" then Absent else Scan(Segments(header.value), name, None)
  }

  method ExtractCookie(header: Option<string>, name: string) returns (r: Extraction)
    ensures r == Extract(header, name)
  {
    if header.None? || header.value == "" {
      return Absent;
    }
    var skipped: Option<Reason> := None;
    var raw := Split(header.value, ';');
    ghost var segments := Segments(header.value);
    for i := 0 to |raw|
      invariant Scan(segments, name, None) == Scan(segments[i..], name, skipped)
    {
      var pair := TrimOws(raw[i]);
      assert pair == segments[i] && segments[i..][1..] == segments[i + 1..];
      var eq := IndexOf(pair, '=');
      if eq == -1 {
        continue;
      }
      var cookieName := TrimOws(pair[..eq]);
      if cookieName != name {
        continue;
      }
      var classified := ClassifyValue(pair[eq + 1..]);
      if classified.Found? {
        return Found(classified.value, skipped);
      }
      if skipped.None? {
        skipped := Some(classified.reason);
      }
    }
    return if skipped.None? then Absent else Rejected(skipped.value);
  }

  // ---- what an extraction says of the same-name pairs ----

  /** The first well-formed value wins; the reason told is that of the first malformed one. */
  ghost predicate IsFirstWellFormed(values: seq<string>, r: Extraction) {
    match r
    case Absent => values == []
    case Rejected(reason) =>
      && values != [] && ClassifyValue(values[0]) == Rejected(reason)
      && forall v | v in values :: ClassifyValue(v).Rejected?
    case Found(value, skipped) =>
      exists i ::
        && 0 <= i < |values| && values[i] == value && ClassifyValue(value).Found?
        && (forall j | 0 <= j < i :: ClassifyValue(values[j]).Rejected?)
        && skipped == if i == 0 then None else Some(ClassifyValue(values[0]).reason)
  }

  lemma {:induction false} ScanSkips(segments: seq<string>, name: string, seen: seq<string>)
    requires seen != [] && forall v | v in seen :: ClassifyValue(v).Rejected?
    ensures IsFirstWellFormed(seen + Values(segments, name),
                              Scan(segments, name, Some(ClassifyValue(seen[0]).reason)))
    decreases |segments|
  {
    if segments == [] {
      assert seen + Values(segments, name) == seen;
    } else if NameOf(segments[0]) != Some(name) {
      ScanSkips(segments[1..], name, seen);
    } else {
      var v := ValueOf(segments[0]);
      var values := seen + Values(segments, name);
      if ClassifyValue(v).Found? {
        assert values[|seen|] == v && forall j | 0 <= j < |seen| :: values[j] in seen;
      } else {
        assert values == (seen + [v]) + Values(segments[1..], name);
        ScanSkips(segments[1..], name, seen + [v]);
      }
    }
  }

  lemma {:induction false} ScanFinds(segments: seq<string>, name: string)
    ensures IsFirstWellFormed(Values(segments, name), Scan(segments, name, None))
  {
    if segments != [] {
      if NameOf(segments[0]) != Some(name) {
        ScanFinds(segments[1..], name);
      } else {
        var v := ValueOf(segments[0]);
        if ClassifyValue(v).Found? {
          assert Values(segments, name)[0] == v;
        } else {
          ScanSkips(segments[1..], name, [v]);
        }
      }
    }
  }

  /** The pairs of a header: none when there is no header. */
  function ValuesIn(header: Option<string>, name: string): seq<string> {
    if header.None? then [] else Values(Segments(header.value), name)
  }

  /** Extraction is the first well-formed of the same-name pairs, and what it finds is a `cookie-value`. */
  lemma ExtractsTheFirstWellFormed(header: Option<string>, name: string)
    ensures IsFirstWellFormed(ValuesIn(header, name), Extract(header, name))
    ensures Extract(header, name).Found? ==> CookieValue(Extract(header, name).value)
  {
    if header.Some? {
      if header.value == "" {
        assert Segments("") == [""] by { TrimTrimmed("", Ows); }
        assert Values([""], name) == [];
      } else {
        ScanFinds(Segments(header.value), name);
      }
    }
    if Extract(header, name).Found? {
      AcceptsExactlyCookieValues(Extract(header, name).value);
    }
  }

  lemma {:induction false} ScanReadsValues(a: seq<string>, b: seq<string>, name: string, skipped: Option<Reason>)
    requires Values(a, name) == Values(b, name)
    ensures Scan(a, name, skipped) == Scan(b, name, skipped)
    decreases |a| + |b|
  {
    if a != [] && NameOf(a[0]) != Some(name) {
      ScanReadsValues(a[1..], b, name, skipped);
    } else if b != [] && NameOf(b[0]) != Some(name) {
      ScanReadsValues(a, b[1..], name, skipped);
    } else if a != [] && b != [] {
      var va, vb := Values(a, name), Values(b, name);
      assert va[0] == vb[0] && va[1..] == Values(a[1..], name) && vb[1..] == Values(b[1..], name);
      var classified := ClassifyValue(va[0]);
      if !classified.Found? {
        ScanReadsValues(a[1..], b[1..], name, if skipped.None? then Some(classified.reason) else skipped);
      }
    }
  }

  /** Headers with the same pairs of a name extract alike. */
  lemma ExtractReadsOnlyValues(a: Option<string>, b: Option<string>, name: string)
    requires ValuesIn(a, name) == ValuesIn(b, name)
    ensures Extract(a, name) == Extract(b, name)
  {
    assert Segments("") == [""] by { TrimTrimmed("", Ows); }
    var sa := if a.None? then [] else Segments(a.value);
    var sb := if b.None? then [] else Segments(b.value);
    ScanReadsValues(sa, sb, name, None);
    assert Scan([""], name, None) == Absent == Scan([], name, None);
  }

  // ---- removal ----

  /** The segments not named `name`; one without `=` has no name. */
  function Kept(segments: seq<string>, name: string): seq<string> {
    if segments == [] then []
    else if NameOf(segments[0]) == Some(name) then Kept(segments[1..], name)
    else [segments[0]] + Kept(segments[1..], name)
  }

  function WithoutCookie(header: Option<string>, name: string): Option<string> {
    if header.None? then None
    else
      var pairs := Segments(header.value);
      var kept := Kept(pairs, name);
      if |kept| == |pairs| then header
      else
        var rest := NonEmpty(kept);
        if |rest| > 0 then Some(Join(rest, "; ")) else None
  }

  /** A segment as the reader sees one: no `;` in it and no slack around it. */
  ghost predicate Clean(segment: string) {
    ';' !in segment && Trimmed(segment, Ows)
  }

  lemma SegmentsAreClean(header: string)
    ensures forall s | s in Segments(header) :: Clean(s)
  {
    SplitParts(header, ';');
    var parts := Split(header, ';');
    forall s | s in Segments(header) ensures Clean(s) {
      var i :| 0 <= i < |parts| && Segments(header)[i] == s;
      TrimCuts(parts[i], Ows);
      assert parts[i] in parts;
    }
  }

  /** Clean segments joined by `; ` read back as themselves. */
  lemma {:induction false} JoinedReadBack(segments: seq<string>)
    requires segments != [] && forall s | s in segments :: Clean(s)
    ensures Segments(Join(segments, "; ")) == segments
    ensures Segments([' '] + Join(segments, "; ")) == segments
  {
    var head, joined := segments[0], Join(segments, "; ");
    assert Clean(head);
    TrimTrimmed(head, Ows);
    TrimLeading(' ', head, Ows);
    if |segments| == 1 {
      SplitWhole(head, ';');
      SplitWhole([' '] + head, ';');
      assert segments == [head];
    } else {
      var rest := [' '] + Join(segments[1..], "; ");
      assert joined == head + ([';'] + rest);
      assert [' '] + joined == ([' '] + head) + ([';'] + rest);
      SplitFirst(head, ';', rest);
      SplitFirst([' '] + head, ';', rest);
      JoinedReadBack(segments[1..]);
      TrimsAppend([head], Split(rest, ';'), Ows);
      TrimsAppend([[' '] + head], Split(rest, ';'), Ows);
      assert segments == [head] + segments[1..];
    }
  }

  lemma {:induction false} KeptIsShorter(segments: seq<string>, name: string)
    ensures |Kept(segments, name)| <= |segments|
    ensures |Kept(segments, name)| == |segments| ==> Kept(segments, name) == segments
  {
    if segments != [] {
      KeptIsShorter(segments[1..], name);
    }
  }

  lemma {:induction false} KeptMembers(segments: seq<string>, name: string)
    ensures |Kept(segments, name)| <= |segments|
    ensures forall s :: s in Kept(segments, name) <==> s in segments && NameOf(s) != Some(name)
    ensures |Kept(segments, name)| == |segments| ==> Kept(segments, name) == segments
  {
    KeptIsShorter(segments, name);
    if segments != [] {
      KeptMembers(segments[1..], name);
    }
  }

  lemma {:induction false} KeptValues(segments: seq<string>, name: string, other: string)
    ensures Values(Kept(segments, name), other) == if other == name then [] else Values(segments, other)
  {
    if segments != [] {
      KeptValues(segments[1..], name, other);
    }
  }

  lemma {:induction false} NonEmptyValues(segments: seq<string>, name: string)
    ensures Values(NonEmpty(segments), name) == Values(segments, name)
  {
    if segments != [] {
      NonEmptyValues(segments[1..], name);
    }
  }

  /** What removal leaves, as segments: the header as it was, or the kept ones with the empty ones dropped. */
  lemma RemovalSegments(header: string, name: string)
    ensures var kept := Kept(Segments(header), name);
            var r := WithoutCookie(Some(header), name);
            if kept == Segments(header) then r == Some(header)
            else (if NonEmpty(kept) == [] then r == None else r.Some? && Segments(r.value) == NonEmpty(kept))
  {
    var pairs := Segments(header);
    KeptMembers(pairs, name);
    NonEmptyMembers(Kept(pairs, name));
    SegmentsAreClean(header);
    var rest := NonEmpty(Kept(pairs, name));
    if rest != [] {
      JoinedReadBack(rest);
    }
  }

  /** After removal no pair has the name, and every other name has the pairs it had. */
  lemma RemovalKeepsOtherPairs(header: Option<string>, name: string, other: string)
    ensures ValuesIn(WithoutCookie(header, name), other) == if other == name then [] else ValuesIn(header, other)
  {
    if header.Some? {
      RemovalSegments(header.value, name);
      KeptValues(Segments(header.value), name, other);
      NonEmptyValues(Kept(Segments(header.value), name), other);
    }
  }

  /** Reading the removed name finds nothing; reading any other name finds what it did. */
  lemma RemovalAndReadingAgree(header: Option<string>, name: string, other: string)
    ensures Extract(WithoutCookie(header, name), name) == Absent
    ensures other != name ==> Extract(WithoutCookie(header, name), other) == Extract(header, other)
  {
    RemovalKeepsOtherPairs(header, name, name);
    ExtractReadsOnlyValues(WithoutCookie(header, name), None, name);
    RemovalKeepsOtherPairs(header, name, other);
    if other != name {
      ExtractReadsOnlyValues(WithoutCookie(header, name), header, other);
    }
  }

  lemma {:induction false} NothingToKeepOut(segments: seq<string>, name: string)
    ensures Values(segments, name) == [] <==> Kept(segments, name) == segments
  {
    KeptMembers(segments, name);
    if segments != [] {
      NothingToKeepOut(segments[1..], name);
      KeptMembers(segments[1..], name);
      if NameOf(segments[0]) == Some(name) {
        assert |Kept(segments, name)| < |segments|;
      }
    }
  }

  /** A header is left byte for byte exactly when it has no pair of the name. */
  lemma UnchangedWithoutThePair(header: string, name: string)
    ensures WithoutCookie(Some(header), name) == Some(header) <==> Values(Segments(header), name) == []
  {
    NothingToKeepOut(Segments(header), name);
    RemovalSegments(header, name);
    if Values(Segments(header), name) != [] {
      RemovalKeepsOtherPairs(Some(header), name, name);
    }
  }

  lemma RemovalIsIdempotent(header: Option<string>, name: string)
    ensures WithoutCookie(WithoutCookie(header, name), name) == WithoutCookie(header, name)
  {
    var once := WithoutCookie(header, name);
    if once.Some? {
      RemovalKeepsOtherPairs(header, name, name);
      UnchangedWithoutThePair(once.value, name);
    }
  }

  lemma {:induction false} FiltersCommute(segments: seq<string>, a: string, b: string)
    ensures NonEmpty(Kept(NonEmpty(Kept(segments, a)), b)) == NonEmpty(Kept(NonEmpty(Kept(segments, b)), a))
    ensures NonEmpty(NonEmpty(segments)) == NonEmpty(segments)
  {
    if segments != [] {
      FiltersCommute(segments[1..], a, b);
    }
  }

  lemma {:induction false} StillThere(segments: seq<string>, a: string, b: string)
    requires a != b && Values(segments, b) != []
    ensures NonEmpty(Kept(segments, a)) != [] && Values(NonEmpty(Kept(segments, a)), b) != []
  {
    KeptValues(segments, a, b);
    NonEmptyValues(Kept(segments, a), b);
  }

  /** Removing two names gives the same header, byte for byte, in either order. */
  lemma RemovalsCommute(header: Option<string>, a: string, b: string)
    ensures WithoutCookie(WithoutCookie(header, a), b) == WithoutCookie(WithoutCookie(header, b), a)
  {
    if header.Some? && a != b {
      var segments := Segments(header.value);
      UnchangedWithoutThePair(header.value, a);
      UnchangedWithoutThePair(header.value, b);
      if Values(segments, a) == [] {
        RemovalLeavesAbsent(header, b, a);
      } else if Values(segments, b) == [] {
        RemovalLeavesAbsent(header, a, b);
      } else {
        BothRemoved(header.value, a, b);
        BothRemoved(header.value, b, a);
        FiltersCommute(segments, a, b);
      }
    }
  }

  lemma RemovalLeavesAbsent(header: Option<string>, a: string, b: string)
    requires a != b && ValuesIn(header, b) == []
    ensures WithoutCookie(WithoutCookie(header, a), b) == WithoutCookie(header, a)
  {
    RemovalKeepsOtherPairs(header, a, b);
    if WithoutCookie(header, a).Some? {
      UnchangedWithoutThePair(WithoutCookie(header, a).value, b);
    }
  }

  lemma BothRemoved(header: string, a: string, b: string)
    requires a != b && Values(Segments(header), a) != [] && Values(Segments(header), b) != []
    ensures var rest := NonEmpty(Kept(NonEmpty(Kept(Segments(header), a)), b));
            WithoutCookie(WithoutCookie(Some(header), a), b) == if rest == [] then None else Some(Join(rest, "; "))
  {
    var segments := Segments(header);
    RemovalSegments(header, a);
    NothingToKeepOut(segments, a);
    StillThere(segments, a, b);
    var once := WithoutCookie(Some(header), a);
    NothingToKeepOut(Segments(once.value), b);
    KeptMembers(Segments(once.value), b);
  }

  // ---- printing a found pair ----

  /** A `token` character of section 5.6.2 of RFC 9110, as a cookie name is made of. */
  predicate TokenChar(c: char) {
    c in "!#$%&'*+.^_`|~-" || '0' <= c <= '9' || 'A' <= c <= 'Z' || 'a' <= c <= 'z'
  }

  predicate CookieName(name: string) {
    name != "" && forall c | c in name :: TokenChar(c)
  }

  /** `name=value`, as the session grant sends it, reads back as that one pair and no other. */
  lemma FoundPairPrintsBack(header: Option<string>, name: string, other: string)
    requires CookieName(name) && Extract(header, name).Found?
    ensures var sent := name + (['='] + Extract(header, name).value);
            && ValuesIn(Some(sent), other) == (if other == name then [Extract(header, name).value] else [])
            && Extract(Some(sent), name) == Found(Extract(header, name).value, None)
  {
    var value := Extract(header, name).value;
    ExtractsTheFirstWellFormed(header, name);
    var sent := name + (['='] + value);
    SentIsOneSegment(name, value);
    NameOfSent(name, value);
    assert Values([sent], other) == if other == name then [value] else [];
  }

  lemma FoundCharacters(value: string)
    requires ClassifyValue(value).Found?
    ensures value != "" && forall c | c in value :: CookieOctet(c) || c == '"'
  {
    if |value| >= 2 && value[0] == '"' && value[|value| - 1] == '"' {
      assert value == [value[0]] + value[1..|value| - 1] + [value[|value| - 1]];
    }
  }

  lemma OneSegment(sent: string)
    requires sent != "" && ';' !in sent && Trimmed(sent, Ows)
    ensures Segments(sent) == [sent]
  {
    SplitWhole(sent, ';');
    TrimTrimmed(sent, Ows);
  }

  lemma FoundEdges(value: string)
    requires ClassifyValue(value).Found?
    ensures value != "" && ';' !in value && !Ows(value[|value| - 1])
  {
    FoundCharacters(value);
    assert value[|value| - 1] in value;
  }

  lemma NameEdges(name: string)
    requires CookieName(name)
    ensures name != "" && ';' !in name && '=' !in name && !Ows(name[0]) && !Ows(name[|name| - 1])
  {
    assert name[0] in name && name[|name| - 1] in name;
  }

  lemma SentIsOneSegment(name: string, value: string)
    requires CookieName(name) && ClassifyValue(value).Found?
    ensures Segments(name + (['='] + value)) == [name + (['='] + value)]
  {
    var sent := name + (['='] + value);
    FoundEdges(value);
    NameEdges(name);
    assert sent[0] == name[0] && sent[|sent| - 1] == value[|value| - 1];
    OneSegment(sent);
  }

  lemma NameOfSent(name: string, value: string)
    requires CookieName(name)
    ensures NameOf(name + (['='] + value)) == Some(name)
    ensures ValueOf(name + (['='] + value)) == value
  {
    NameEdges(name);
    FirstOf(name, '=', value);
    TrimTrimmed(name, Ows);
  }

  lemma FirstOf(a: string, c: char, b: string)
    requires c !in a
    ensures var s := a + ([c] + b);
            IndexOf(s, c) == |a| && s[..|a|] == a && s[|a| + 1..] == b
  {
    var s := a + ([c] + b);
    assert s[|a|] == c;
    forall i | 0 <= i < |a| ensures s[i] != c {
      assert s[i] == a[i];
    }
  }

  // ---- headers as they are written ----

  /** A part of a header between semicolons, with the slack it is written with: a pair, or text that is none. */
  datatype Piece =
    | Pair(before: string, name: string, between: string, value: string, after: string)
    | Bare(before: string, text: string, after: string)

  ghost predicate Writable(p: Piece) {
    && Slack(p.before, Ows) && Slack(p.after, Ows) && ';' !in p.before && ';' !in p.after
    && match p
       case Pair(_, name, between, value, _) =>
         && Slack(between, Ows) && Trimmed(name, Ows) && (name == "" ==> between == "")
         && '=' !in name && ';' !in name && ';' !in value && (value == "" || !Ows(value[|value| - 1]))
       case Bare(_, text, _) => Trimmed(text, Ows) && '=' !in text && ';' !in text
  }

  /** The piece without the slack at its ends. */
  function Lean(p: Piece): string {
    match p
    case Pair(_, name, between, value, _) => name + between + (['='] + value)
    case Bare(_, text, _) => text
  }

  function Leans(pieces: seq<Piece>): seq<string> {
    if pieces == [] then [] else [Lean(pieces[0])] + Leans(pieces[1..])
  }

  function Texts(pieces: seq<Piece>): seq<string> {
    if pieces == [] then [] else [pieces[0].before + Lean(pieces[0]) + pieces[0].after] + Texts(pieces[1..])
  }

  function Written(pieces: seq<Piece>): string {
    Join(Texts(pieces), ";")
  }

  /** The values of the pairs written with a name, in order. */
  function ValuesOf(pieces: seq<Piece>, name: string): seq<string> {
    if pieces == [] then []
    else (if pieces[0].Pair? && pieces[0].name == name then [pieces[0].value] else []) + ValuesOf(pieces[1..], name)
  }

  /** The pieces but the pairs of a name. */
  function Others(pieces: seq<Piece>, name: string): seq<Piece> {
    if pieces == [] then []
    else (if pieces[0].Pair? && pieces[0].name == name then [] else [pieces[0]]) + Others(pieces[1..], name)
  }

  lemma SlackHoldsNo(s: string, c: char)
    requires Slack(s, Ows) && !Ows(c)
    ensures c !in s
  {
  }

  lemma LeanIsTrimmed(p: Piece)
    requires Writable(p)
    ensures Trimmed(Lean(p), Ows) && ';' !in Lean(p)
  {
    if p.Pair? {
      SlackHoldsNo(p.between, ';');
    }
  }

  lemma LeanReads(p: Piece)
    requires Writable(p)
    ensures NameOf(Lean(p)) == if p.Pair? then Some(p.name) else None
    ensures p.Pair? ==> ValueOf(Lean(p)) == p.value
  {
    if p.Pair? {
      SlackHoldsNo(p.between, '=');
      FirstOf(p.name + p.between, '=', p.value);
      assert "" + p.name + p.between == p.name + p.between;
      TrimTakesOff("", p.name, p.between, Ows);
    }
  }

  lemma {:induction false} SplitsWhatIsJoined(parts: seq<string>)
    requires parts != [] && forall part | part in parts :: ';' !in part
    ensures Split(Join(parts, ";"), ';') == parts
  {
    assert parts[0] in parts;
    if |parts| == 1 {
      SplitWhole(parts[0], ';');
      assert parts == [parts[0]];
    } else {
      var rest := Join(parts[1..], ";");
      SplitsWhatIsJoined(parts[1..]);
      assert Join(parts, ";") == parts[0] + ([';'] + rest);
      SplitFirst(parts[0], ';', rest);
      assert parts == [parts[0]] + parts[1..];
    }
  }

  lemma {:induction false} TextsTrim(pieces: seq<Piece>)
    requires forall p | p in pieces :: Writable(p)
    ensures Trims(Texts(pieces), Ows) == Leans(pieces)
    ensures forall t | t in Texts(pieces) :: ';' !in t
    ensures |Texts(pieces)| == |pieces|
  {
    if pieces != [] {
      var p := pieces[0];
      LeanIsTrimmed(p);
      TrimTakesOff(p.before, Lean(p), p.after, Ows);
      TextsTrim(pieces[1..]);
      assert Texts(pieces)[1..] == Texts(pieces[1..]);
    }
  }

  lemma SegmentsOfWritten(pieces: seq<Piece>)
    requires pieces != [] && forall p | p in pieces :: Writable(p)
    ensures Segments(Written(pieces)) == Leans(pieces)
  {
    TextsTrim(pieces);
    SplitsWhatIsJoined(Texts(pieces));
  }

  lemma {:induction false} LeansRead(pieces: seq<Piece>, name: string)
    requires forall p | p in pieces :: Writable(p)
    ensures Values(Leans(pieces), name) == ValuesOf(pieces, name)
    ensures Kept(Leans(pieces), name) == Leans(Others(pieces, name))
    ensures |Leans(pieces)| == |pieces| && |Others(pieces, name)| <= |pieces|
    ensures |Others(pieces, name)| == |pieces| <==> ValuesOf(pieces, name) == []
  {
    if pieces != [] {
      var rest := pieces[1..];
      LeanReads(pieces[0]);
      LeansRead(rest, name);
      assert Leans(pieces)[1..] == Leans(rest);
      OthersStep(pieces, name);
    }
  }

  lemma OthersStep(pieces: seq<Piece>, name: string)
    requires pieces != []
    ensures Leans(Others(pieces, name)) ==
            if pieces[0].Pair? && pieces[0].name == name then Leans(Others(pieces[1..], name))
            else [Lean(pieces[0])] + Leans(Others(pieces[1..], name))
  {
    var others := Others(pieces[1..], name);
    assert ([pieces[0]] + others)[1..] == others;
    assert [] + others == others;
  }

  /** However a header is written, the values read for a name are those of the pairs written with it, in order. */
  lemma ReadsThePairsWritten(pieces: seq<Piece>, name: string)
    requires pieces != [] && forall p | p in pieces :: Writable(p)
    ensures ValuesIn(Some(Written(pieces)), name) == ValuesOf(pieces, name)
  {
    SegmentsOfWritten(pieces);
    LeansRead(pieces, name);
  }

  /**
   * However a header is written, removal gives it back as it is when it has no
   * pair of the name, and else what is left, to the letter: every other piece
   * that holds anything, in order, without slack at its ends, joined by `; `.
   */
  lemma RemovalWritesTheRest(pieces: seq<Piece>, name: string)
    requires pieces != [] && forall p | p in pieces :: Writable(p)
    ensures var rest := NonEmpty(Leans(Others(pieces, name)));
            WithoutCookie(Some(Written(pieces)), name) ==
            if ValuesOf(pieces, name) == [] then Some(Written(pieces))
            else if rest == [] then None else Some(Join(rest, "; "))
  {
    SegmentsOfWritten(pieces);
    LeansRead(pieces, name);
    LeansCount(Others(pieces, name));
  }

  lemma {:induction false} LeansCount(pieces: seq<Piece>)
    ensures |Leans(pieces)| == |pieces|
  {
    if pieces != [] {
      LeansCount(pieces[1..]);
    }
  }

  lemma NotInParts(a: string, b: string, c: string, x: char)
    requires x !in a + b + c
    ensures x !in a && x !in b && x !in c
  {
    assert forall i | 0 <= i < |a| :: (a + b + c)[i] == a[i];
    assert forall i | 0 <= i < |b| :: (a + b + c)[|a| + i] == b[i];
    assert forall i | 0 <= i < |c| :: (a + b + c)[|a| + |b| + i] == c[i];
  }

  /** A trimmed text with a `=` is a pair, cut at the first. */
  lemma PairOf(before: string, text: string, after: string) returns (p: Piece)
    requires Slack(before, Ows) && Slack(after, Ows) && ';' !in before && ';' !in after
    requires Trimmed(text, Ows) && ';' !in text && '=' in text
    ensures Writable(p) && p.before == before && p.after == after && Lean(p) == text
  {
    var eq := IndexOf(text, '=');
    var head, value := text[..eq], text[eq + 1..];
    HeadOfTrimmed(text, eq);
    var between := TrimEndLeaves(head, Ows);
    TrimEndCuts(head, Ows);
    var name := TrimEnd(head, Ows);
    CutAt(text, eq, name, between);
    NotInHalves(text, eq, name, between);
    p := Pair(before, name, between, value, after);
  }

  lemma CutAt(text: string, eq: nat, name: string, between: string)
    requires eq < |text| && text[..eq] == name + between && text[eq] == '='
    ensures text == name + between + (['='] + text[eq + 1..])
  {
    assert text == text[..eq] + ([text[eq]] + text[eq + 1..]);
  }

  lemma NotInHalves(text: string, eq: nat, name: string, between: string)
    requires eq < |text| && text[..eq] == name + between && ';' !in text && forall i | 0 <= i < eq :: text[i] != '='
    ensures ';' !in name && ';' !in text[eq + 1..] && '=' !in name
  {
    assert forall i | 0 <= i < |name| :: name[i] == text[..eq][i] == text[i];
  }

  lemma PieceOf(part: string) returns (p: Piece)
    requires ';' !in part
    ensures Writable(p) && p.before + Lean(p) + p.after == part
  {
    var text := TrimOws(part);
    var before, after := TrimLeaves(part, Ows);
    NotInParts(before, text, after, ';');
    if '=' in text {
      p := PairOf(before, text, after);
    } else {
      p := Bare(before, text, after);
    }
  }

  lemma HeadOfTrimmed(text: string, eq: nat)
    requires Trimmed(text, Ows) && eq < |text|
    ensures eq > 0 ==> !Ows(text[..eq][0]) && TrimEnd(text[..eq], Ows) != ""
    ensures eq == 0 ==> text[..eq] == ""
  {
    if eq > 0 {
      EndKeepsFirst(text[..eq], Ows);
    }
  }

  lemma {:induction false} PiecesOf(parts: seq<string>) returns (pieces: seq<Piece>)
    requires forall part | part in parts :: ';' !in part
    ensures |pieces| == |parts| && Texts(pieces) == parts && forall p | p in pieces :: Writable(p)
  {
    if parts == [] {
      pieces := [];
    } else {
      var p := PieceOf(parts[0]);
      var rest := PiecesOf(parts[1..]);
      pieces := [p] + rest;
      OneTextMore(p, rest);
    }
  }

  lemma OneTextMore(p: Piece, rest: seq<Piece>)
    ensures Texts([p] + rest) == [p.before + Lean(p) + p.after] + Texts(rest)
  {
    assert ([p] + rest)[1..] == rest;
  }

  /** Every header is written in some such way, so what is said of written headers is said of all. */
  lemma EveryHeaderIsWritten(header: string) returns (pieces: seq<Piece>)
    ensures pieces != [] && Written(pieces) == header && forall p | p in pieces :: Writable(p)
  {
    SplitParts(header, ';');
    SplitJoins(header, ';');
    pieces := PiecesOf(Split(header, ';'));
  }
}
