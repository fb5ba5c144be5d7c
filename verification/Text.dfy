/** JavaScript's `split`, `join` and trimming, as the header grammars use them. */
module Text {

  const CAPITALS := "ABCDEFGHIJKLMNOPQRSTUVWXYZ"
  const SMALL_LETTERS := "abcdefghijklmnopqrstuvwxyz"
  const DIGITS := "0123456789"

  lemma CapitalsListed(c: char)
    ensures c in CAPITALS <==> 'A' <= c <= 'Z'
  {
    if 'A' <= c <= 'Z' {
      assert CAPITALS[c as int - 'A' as int] == c;
    }
  }

  lemma SmallLettersListed(c: char)
    ensures c in SMALL_LETTERS <==> 'a' <= c <= 'z'
  {
    if 'a' <= c <= 'z' {
      assert SMALL_LETTERS[c as int - 'a' as int] == c;
    }
  }

  lemma DigitsListed(c: char)
    ensures c in DIGITS <==> '0' <= c <= '9'
  {
    if '0' <= c <= '9' {
      assert DIGITS[c as int - '0' as int] == c;
    }
  }

  /** `s.split(sep)`: always at least one part. */
  function Split(s: string, sep: char): (parts: seq<string>)
    ensures |parts| >= 1
  {
    if s == "" then [""]
    else if s[0] == sep then [""] + Split(s[1..], sep)
    else
      var rest := Split(s[1..], sep);
      [[s[0]] + rest[0]] + rest[1..]
  }

  /** `parts.join(glue)`. */
  function Join(parts: seq<string>, glue: string): string {
    if parts == [] then ""
    else if |parts| == 1 then parts[0]
    else parts[0] + (glue + Join(parts[1..], glue))
  }

  function TrimStart(s: string, space: char -> bool): string {
    if s == "" || !space(s[0]) then s else TrimStart(s[1..], space)
  }

  function TrimEnd(s: string, space: char -> bool): string {
    if s == "" || !space(s[|s| - 1]) then s else TrimEnd(s[..|s| - 1], space)
  }

  function Trim(s: string, space: char -> bool): string {
    TrimEnd(TrimStart(s, space), space)
  }

  ghost predicate Trimmed(s: string, space: char -> bool) {
    s == "" || (!space(s[0]) && !space(s[|s| - 1]))
  }

  /** The position of the first `c`, or none. */
  function IndexOf(s: string, c: char): (i: int)
    ensures -1 <= i < |s|
    ensures i >= 0 ==> s[i] == c && forall k | 0 <= k < i :: s[k] != c
    ensures i == -1 ==> c !in s
  {
    if s == "" then -1
    else if s[0] == c then 0
    else
      var i := IndexOf(s[1..], c);
      if i == -1 then -1 else i + 1
  }

  lemma {:induction false} SplitWhole(s: string, sep: char)
    requires sep !in s
    ensures Split(s, sep) == [s]
  {
    if s != "" {
      SplitWhole(s[1..], sep);
      assert [s[0]] + s[1..] == s;
    }
  }

  lemma {:induction false} SplitFirst(a: string, sep: char, b: string)
    requires sep !in a
    ensures Split(a + ([sep] + b), sep) == [a] + Split(b, sep)
  {
    var s := a + ([sep] + b);
    if a == "" {
      assert s == [sep] + b && s[1..] == b;
    } else {
      assert s[1..] == a[1..] + ([sep] + b);
      SplitFirst(a[1..], sep, b);
      assert [a[0]] + a[1..] == a;
    }
  }

  lemma {:induction false} SplitParts(s: string, sep: char)
    ensures forall part | part in Split(s, sep) :: sep !in part
    ensures forall part, c | part in Split(s, sep) && c in part :: c in s
  {
    if s != "" {
      SplitParts(s[1..], sep);
      var rest := Split(s[1..], sep);
      forall part | part in Split(s, sep) ensures sep !in part && forall c | c in part :: c in s {
        if s[0] == sep {
          assert part == "" || part in rest;
        } else {
          assert part == [s[0]] + rest[0] || part in rest[1..];
          assert rest[0] in rest;
        }
      }
    }
  }

  /** The parts are exactly what joins back with the separator. */
  lemma {:induction false} SplitJoins(s: string, sep: char)
    ensures Join(Split(s, sep), [sep]) == s
  {
    if s != "" {
      SplitJoins(s[1..], sep);
      var rest := Split(s[1..], sep);
      if s[0] == sep {
        assert ([""] + rest)[1..] == rest;
      } else {
        var parts := [[s[0]] + rest[0]] + rest[1..];
        assert parts[1..] == rest[1..];
        if |rest| == 1 {
          assert Join(parts, [sep]) == [s[0]] + rest[0];
        } else {
          assert Join(parts, [sep]) == [s[0]] + (rest[0] + ([sep] + Join(rest[1..], [sep])));
        }
      }
    }
  }

  // ---- trimming ----

  lemma {:induction false} TrimStartCuts(s: string, space: char -> bool)
    ensures var r := TrimStart(s, space); r == "" || (!space(r[0]) && r[|r| - 1] == s[|s| - 1])
    ensures forall c | c in TrimStart(s, space) :: c in s
  {
    if s != "" && space(s[0]) {
      TrimStartCuts(s[1..], space);
    }
  }

  lemma {:induction false} TrimEndCuts(s: string, space: char -> bool)
    ensures var r := TrimEnd(s, space); r == "" || (!space(r[|r| - 1]) && r[0] == s[0])
    ensures forall c | c in TrimEnd(s, space) :: c in s
  {
    if s != "" && space(s[|s| - 1]) {
      TrimEndCuts(s[..|s| - 1], space);
    }
  }

  lemma TrimCuts(s: string, space: char -> bool)
    ensures Trimmed(Trim(s, space), space)
    ensures forall c | c in Trim(s, space) :: c in s
  {
    TrimStartCuts(s, space);
    TrimEndCuts(TrimStart(s, space), space);
  }

  lemma TrimTrimmed(s: string, space: char -> bool)
    requires Trimmed(s, space)
    ensures Trim(s, space) == s
  {
  }

  /** Leading slack is trimmed away. */
  lemma TrimLeading(c: char, s: string, space: char -> bool)
    requires space(c)
    ensures Trim([c] + s, space) == Trim(s, space)
  {
    assert ([c] + s)[1..] == s;
  }

  lemma {:induction false} AllSpace(s: string, space: char -> bool)
    requires forall c | c in s :: space(c)
    ensures Trim(s, space) == ""
  {
    if s != "" {
      AllSpace(s[1..], space);
      assert space(s[0]);
    }
  }

  predicate Slack(s: string, space: char -> bool) {
    forall i | 0 <= i < |s| :: space(s[i])
  }

  lemma {:induction false} TrimStartTakesOff(a: string, s: string, space: char -> bool)
    requires Slack(a, space) && (s == "" || !space(s[0]))
    ensures TrimStart(a + s, space) == s
  {
    if a == "" {
      assert a + s == s;
    } else {
      assert (a + s)[1..] == a[1..] + s && (a + s)[0] == a[0];
      TrimStartTakesOff(a[1..], s, space);
    }
  }

  lemma {:induction false} TrimEndTakesOff(s: string, b: string, space: char -> bool)
    requires Slack(b, space) && (s == "" || !space(s[|s| - 1]))
    ensures TrimEnd(s + b, space) == s
  {
    if b == "" {
      assert s + b == s;
    } else {
      var n := |b| - 1;
      assert (s + b)[..|s + b| - 1] == s + b[..n] && (s + b)[|s + b| - 1] == b[n];
      TrimEndTakesOff(s, b[..n], space);
    }
  }

  /** Trimming takes off exactly the slack around a text. */
  lemma TrimTakesOff(a: string, s: string, b: string, space: char -> bool)
    requires Slack(a, space) && Slack(b, space) && Trimmed(s, space)
    ensures Trim(a + s + b, space) == s
  {
    if s == "" {
      assert a + s + b == a + b;
      forall c | c in a + s + b ensures space(c) {
        var i :| 0 <= i < |a + b| && (a + b)[i] == c;
        assert i < |a| ==> space(a[i]);
      }
      AllSpace(a + s + b, space);
    } else {
      assert a + s + b == a + (s + b) && (s + b)[0] == s[0];
      TrimStartTakesOff(a, s + b, space);
      TrimEndTakesOff(s, b, space);
    }
  }

  lemma {:induction false} TrimStartLeaves(s: string, space: char -> bool) returns (a: string)
    ensures Slack(a, space) && s == a + TrimStart(s, space)
  {
    if s == "" || !space(s[0]) {
      a := "";
    } else {
      var rest := TrimStartLeaves(s[1..], space);
      a := [s[0]] + rest;
    }
  }

  lemma {:induction false} TrimEndLeaves(s: string, space: char -> bool) returns (b: string)
    ensures Slack(b, space) && s == TrimEnd(s, space) + b
  {
    if s == "" || !space(s[|s| - 1]) {
      b := "";
    } else {
      var n := |s| - 1;
      var rest := TrimEndLeaves(s[..n], space);
      b := rest + [s[n]];
      assert s == s[..n] + [s[n]];
    }
  }

  /** A text is its trimmed text with slack around it. */
  lemma TrimLeaves(s: string, space: char -> bool) returns (a: string, b: string)
    ensures Slack(a, space) && Slack(b, space) && s == a + Trim(s, space) + b
    ensures Trimmed(Trim(s, space), space)
  {
    a := TrimStartLeaves(s, space);
    b := TrimEndLeaves(TrimStart(s, space), space);
    TrimCuts(s, space);
  }

  lemma BlankIsSlack(s: string, space: char -> bool)
    ensures Trim(s, space) == "" <==> Slack(s, space)
  {
    if Trim(s, space) == "" {
      TrimmedToNothing(s, space);
      assert forall i | 0 <= i < |s| :: s[i] in s;
    }
    if Slack(s, space) {
      AllSpace(s, space);
    }
  }

  // ---- lists of parts ----

  function Trims(parts: seq<string>, space: char -> bool): (r: seq<string>)
    ensures |r| == |parts| && forall i | 0 <= i < |parts| :: r[i] == Trim(parts[i], space)
  {
    if parts == [] then [] else [Trim(parts[0], space)] + Trims(parts[1..], space)
  }

  function NonEmpty(parts: seq<string>): seq<string> {
    if parts == [] then []
    else if parts[0] == "" then NonEmpty(parts[1..])
    else [parts[0]] + NonEmpty(parts[1..])
  }

  lemma {:induction false} NonEmptyMembers(parts: seq<string>)
    ensures forall s :: s in NonEmpty(parts) <==> s in parts && s != ""
  {
    if parts != [] {
      NonEmptyMembers(parts[1..]);
    }
  }

  lemma {:induction false} NonEmptyAppend(a: seq<string>, b: seq<string>)
    ensures NonEmpty(a + b) == NonEmpty(a) + NonEmpty(b)
  {
    if a == [] {
      assert a + b == b;
    } else {
      assert (a + b)[1..] == a[1..] + b;
      NonEmptyAppend(a[1..], b);
    }
  }

  lemma {:induction false} NonEmptyWhole(parts: seq<string>)
    requires "" !in parts
    ensures NonEmpty(parts) == parts
  {
    if parts != [] {
      NonEmptyWhole(parts[1..]);
    }
  }

  lemma TrimsAppend(a: seq<string>, b: seq<string>, space: char -> bool)
    ensures Trims(a + b, space) == Trims(a, space) + Trims(b, space)
  {
  }

  lemma {:induction false} SplitAppend(a: string, sep: char, b: string)
    ensures Split(a + ([sep] + b), sep) == Split(a, sep) + Split(b, sep)
  {
    var s := a + ([sep] + b);
    if a == "" {
      assert s == [sep] + b && s[1..] == b;
    } else {
      assert s[1..] == a[1..] + ([sep] + b);
      SplitAppend(a[1..], sep, b);
    }
  }

  // ---- comma-separated header lists ----

  /** What `String.prototype.trim` takes off. */
  predicate JsSpace(c: char) {
    || '\t' <= c <= '\r' || c == ' ' || c == '\U{A0}' || c == '\U{1680}' || '\U{2000}' <= c <= '\U{200A}'
    || c == '\U{2028}' || c == '\U{2029}' || c == '\U{202F}' || c == '\U{205F}' || c == '\U{3000}' || c == '\U{FEFF}'
  }

  /** That is every white space and line terminator of ECMAScript, by code point. */
  lemma JsSpaceIsListed(c: char)
    ensures JsSpace(c) <==>
            c as int in {0x09, 0x0a, 0x0b, 0x0c, 0x0d, 0x20, 0xa0, 0x1680,
                         0x2000, 0x2001, 0x2002, 0x2003, 0x2004, 0x2005, 0x2006, 0x2007, 0x2008, 0x2009, 0x200a,
                         0x2028, 0x2029, 0x202f, 0x205f, 0x3000, 0xfeff}
  {
  }

  /** The members of a list header, in order: trimmed, the empty ones dropped. */
  function Members(list: string): seq<string> {
    NonEmpty(Trims(Split(list, ','), JsSpace))
  }

  /** A text that is one member of a list, as it is. */
  predicate IsMember(s: string) {
    s != "" && ',' !in s && !JsSpace(s[0]) && !JsSpace(s[|s| - 1])
  }

  lemma MembersAreMembers(list: string)
    ensures forall s | s in Members(list) :: IsMember(s)
  {
    var parts := Split(list, ',');
    SplitParts(list, ',');
    NonEmptyMembers(Trims(parts, JsSpace));
    forall s | s in Members(list) ensures IsMember(s) {
      var i :| 0 <= i < |parts| && Trims(parts, JsSpace)[i] == s;
      assert parts[i] in parts;
      TrimCuts(parts[i], JsSpace);
    }
  }

  /** A comma joins two lists into the list of both their members. */
  lemma MembersAppend(a: string, b: string)
    ensures Members(a + ([','] + b)) == Members(a) + Members(b)
  {
    SplitAppend(a, ',', b);
    TrimsAppend(Split(a, ','), Split(b, ','), JsSpace);
    NonEmptyAppend(Trims(Split(a, ','), JsSpace), Trims(Split(b, ','), JsSpace));
  }

  lemma MembersOfOne(s: string)
    requires IsMember(s)
    ensures Members(s) == [s] && Members([' '] + s) == [s]
  {
    SplitWhole(s, ',');
    SplitWhole([' '] + s, ',');
    TrimTrimmed(s, JsSpace);
    TrimLeading(' ', s, JsSpace);
    assert Trims([s], JsSpace) == [s] && Trims([[' '] + s], JsSpace) == [s];
    NonEmptyWhole([s]);
  }

  /** A member with any slack around it is that one member. */
  lemma MembersOfPadded(a: string, s: string, b: string)
    requires IsMember(s) && Slack(a, JsSpace) && Slack(b, JsSpace)
    ensures Members(a + s + b) == [s]
  {
    forall i | 0 <= i < |a + s + b| ensures (a + s + b)[i] != ',' {
      assert i < |a| ==> JsSpace(a[i]);
      assert |a| <= i < |a + s| ==> (a + s + b)[i] == s[i - |a|];
      assert |a + s| <= i ==> JsSpace(b[i - |a + s|]);
    }
    SplitWhole(a + s + b, ',');
    TrimTakesOff(a, s, b, JsSpace);
    assert Trims([a + s + b], JsSpace) == [s];
    NonEmptyWhole([s]);
  }

  lemma MembersOfSpace(s: string)
    requires Trim(s, JsSpace) == ""
    ensures Members(s) == []
  {
    TrimmedToNothing(s, JsSpace);
    SplitWhole(s, ',');
    assert Trims([s], JsSpace) == [""];
  }

  lemma {:induction false} TrimmedToNothing(s: string, space: char -> bool)
    requires Trim(s, space) == ""
    ensures forall c | c in s :: space(c)
  {
    if s != "" {
      if space(s[0]) {
        TrimmedToNothing(s[1..], space);
      } else {
        EndKeepsFirst(s, space);
      }
    }
  }

  lemma {:induction false} EndKeepsFirst(s: string, space: char -> bool)
    requires s != "" && !space(s[0])
    ensures TrimEnd(s, space) != ""
  {
    if space(s[|s| - 1]) {
      EndKeepsFirst(s[..|s| - 1], space);
    }
  }

  /** A printed list is its first member, a comma, and a space before the rest. */
  lemma PrintedCons(members: seq<string>)
    requires |members| > 1
    ensures Join(members, ", ") == members[0] + ([','] + ([' '] + Join(members[1..], ", ")))
    ensures [' '] + Join(members, ", ") == ([' '] + members[0]) + ([','] + ([' '] + Join(members[1..], ", ")))
  {
    var rest := Join(members[1..], ", ");
    assert ", " + rest == [','] + ([' '] + rest);
    SpaceFirst(members[0], [','] + ([' '] + rest));
  }

  lemma SpaceFirst(a: string, b: string)
    ensures [' '] + (a + b) == ([' '] + a) + b
  {
  }

  /** Members printed as a list read back as themselves. */
  lemma {:induction false} PrintedMembers(members: seq<string>)
    requires members != [] && forall s | s in members :: IsMember(s)
    ensures Members(Join(members, ", ")) == members
    ensures Members([' '] + Join(members, ", ")) == members
  {
    MembersOfOne(members[0]);
    if |members| == 1 {
      assert members == [members[0]];
    } else {
      var rest := [' '] + Join(members[1..], ", ");
      PrintedMembers(members[1..]);
      PrintedCons(members);
      MembersAppend(members[0], rest);
      MembersAppend([' '] + members[0], rest);
      assert members == [members[0]] + members[1..];
    }
  }
}
