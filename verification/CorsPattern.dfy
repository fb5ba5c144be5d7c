/**
 * The scanner over the CORS origin pattern: its top-level alternatives, the
 * dots and wildcards that run into a host name, and which alternatives are
 * anchored at both ends.
 */
module CorsPattern {
  import opened Text

  // ---- how a pattern's text is read, character by character ----

  /** Within how many groups, whether in a character class, and whether the next character is escaped. */
  datatype Mode = Mode(depth: int, inClass: bool, escaped: bool)

  const OUTSIDE := Mode(0, false, false)

  /** A character that stands for itself to the scanner's rules: neither escaped nor in a class. */
  predicate Plain(m: Mode) {
    !m.escaped && !m.inClass
  }

  function Next(m: Mode, c: char): Mode {
    if m.escaped then m.(escaped := false)
    else if c == '\\' then m.(escaped := true)
    else if m.inClass then m.(inClass := c != ']')
    else if c == '[' then m.(inClass := true)
    else if c == '(' then m.(depth := m.depth + 1)
    else if c == ')' then m.(depth := m.depth - 1)
    else m
  }

  /** The mode a pattern's character is read in. */
  function ModeAt(source: string, i: nat): Mode
    requires i <= |source|
  {
    if i == 0 then OUTSIDE else Next(ModeAt(source, i - 1), source[i - 1])
  }

  predicate EndsAlternative(m: Mode, c: char) {
    Plain(m) && m.depth == 0 && c == '|'
  }

  /** A text cut at each `|` outside every group, class and escape. */
  function Alternatives(m: Mode, text: string): (parts: seq<string>)
    ensures |parts| >= 1
    decreases text
  {
    if text == "" then [""]
    else if EndsAlternative(m, text[0]) then [""] + Alternatives(m, text[1..])
    else
      var rest := Alternatives(Next(m, text[0]), text[1..]);
      [[text[0]] + rest[0]] + rest[1..]
  }

  // ---- the scan ----

  /** A letter or a digit at a position, if there is one. */
  predicate NameAt(source: string, at: nat) {
    at < |source| && ('A' <= source[at] <= 'Z' || 'a' <= source[at] <= 'z' || '0' <= source[at] <= '9')
  }

  predicate DotIn(m: Mode, source: string, i: nat)
    requires i < |source|
  {
    Plain(m) && source[i] == '.' && NameAt(source, i + 1)
  }

  predicate WildcardIn(m: Mode, source: string, i: nat)
    requires i < |source|
  {
    Plain(m) && Repeats(source[i]) && NameAt(source, AfterQuantifier(source, i))
  }

  /** A `.` that matches any character, where a host name's dot was meant. */
  predicate HostDot(source: string, i: nat)
    requires i < |source|
  {
    DotIn(ModeAt(source, i), source, i)
  }

  predicate Repeats(c: char) {
    c == '*' || c == '+' || c == '}'
  }

  /** What comes after a quantifier and the `?` that makes it lazy. */
  function AfterQuantifier(source: string, i: nat): nat {
    if i + 1 < |source| && source[i + 1] == '?' then i + 2 else i + 1
  }

  /** A quantifier, lazy or not, that runs into a host name. */
  predicate OpenWildcard(source: string, i: nat)
    requires i < |source|
  {
    WildcardIn(ModeAt(source, i), source, i)
  }

  /** What is found in the characters read so far. */
  datatype Scan = Scan(mode: Mode, start: nat, alternatives: seq<string>, hostDot: bool, openWildcard: bool)

  function ReadNext(source: string, i: nat, scan: Scan): Scan
    requires scan.start <= i < |source|
  {
    var cut := EndsAlternative(scan.mode, source[i]);
    Scan(Next(scan.mode, source[i]),
         if cut then i + 1 else scan.start,
         if cut then scan.alternatives + [source[scan.start..i]] else scan.alternatives,
         scan.hostDot || DotIn(scan.mode, source, i),
         scan.openWildcard || WildcardIn(scan.mode, source, i))
  }

  /** The scan of the first characters. */
  function ScanTo(source: string, i: nat): (scan: Scan)
    requires i <= |source|
    ensures scan.start <= i
  {
    if i == 0 then Scan(OUTSIDE, 0, [], false, false) else ReadNext(source, i - 1, ScanTo(source, i - 1))
  }

  lemma ScansOne(source: string, i: nat, scan: Scan)
    requires i < |source| && scan == ScanTo(source, i)
    ensures ScanTo(source, i + 1) == ReadNext(source, i, scan)
  {
  }

  /** The index loop, escapes stepped over two characters at a time. */
  method ScanCharacters(source: string)
    returns (alternatives: seq<string>, start: nat, hostDot: bool, openWildcard: bool)
    ensures Scan(ModeAt(source, |source|), start, alternatives, hostDot, openWildcard) == ScanTo(source, |source|)
  {
    alternatives, start, hostDot, openWildcard := [], 0, false, false;
    var depth, inClass, i := 0, false, 0;
    ghost var scan := ScanTo(source, 0);
    // An escape at the very end leaves `i` one past the text.
    while i < |source|
      invariant 0 <= i <= |source| + 1 && scan == ScanTo(source, if i <= |source| then i else |source|)
      invariant scan.mode.depth == depth && scan.mode.inClass == inClass && scan.mode.escaped == (i > |source|)
      invariant scan.start == start && scan.alternatives == alternatives
      invariant scan.hostDot == hostDot && scan.openWildcard == openWildcard
    {
      var c := source[i];
      ScansOne(source, i, scan);
      scan := ReadNext(source, i, scan);
      if c == '\\' {
        i := i + 1;
        if i < |source| {
          ScansOne(source, i, scan);
          scan := ReadNext(source, i, scan);
        }
      } else if inClass {
        if c == ']' {
          inClass := false;
        }
      } else if c == '[' {
        inClass := true;
      } else if c == '(' {
        depth := depth + 1;
      } else if c == ')' {
        depth := depth - 1;
      } else if c == '|' && depth == 0 {
        alternatives := alternatives + [source[start..i]];
        start := i + 1;
      } else if c == '.' && NameAt(source, i + 1) {
        hostDot := true;
      } else if Repeats(c) && NameAt(source, AfterQuantifier(source, i)) {
        openWildcard := true;
      }
      i := i + 1;
    }
    ScanFinds(source, |source|);
  }

  method ScanPattern(source: string) returns (alternatives: seq<string>, hostDot: bool, openWildcard: bool)
    ensures alternatives == Alternatives(OUTSIDE, source)
    ensures hostDot <==> exists i :: 0 <= i < |source| && HostDot(source, i)
    ensures openWildcard <==> exists i :: 0 <= i < |source| && OpenWildcard(source, i)
  {
    var start;
    alternatives, start, hostDot, openWildcard := ScanCharacters(source);
    ScanIsWhole(source);
    alternatives := alternatives + [source[start..]];
  }

  /** Text that goes on into the first of some parts. */
  function Continued(text: string, parts: seq<string>): seq<string>
    requires |parts| >= 1
  {
    [text + parts[0]] + parts[1..]
  }

  /** The last text read ends the last alternative. */
  lemma ScanIsWhole(source: string)
    ensures var scan := ScanTo(source, |source|);
            && scan.alternatives + [source[scan.start..]] == Alternatives(OUTSIDE, source)
            && (scan.hostDot <==> exists i :: 0 <= i < |source| && HostDot(source, i))
            && (scan.openWildcard <==> exists i :: 0 <= i < |source| && OpenWildcard(source, i))
  {
    var scan := ScanTo(source, |source|);
    ScanFinds(source, |source|);
    ScanCuts(source, |source|);
    LastAlternative(source, scan.start, ModeAt(source, |source|));
  }

  lemma LastAlternative(source: string, start: nat, m: Mode)
    requires start <= |source|
    ensures Continued(source[start..|source|], Alternatives(m, source[|source|..])) == [source[start..]]
  {
    assert source[|source|..] == "";
    assert source[start..|source|] + "" == source[start..];
  }

  lemma {:induction false} ScanFinds(source: string, n: nat)
    requires n <= |source|
    ensures ScanTo(source, n).mode == ModeAt(source, n)
    ensures ScanTo(source, n).hostDot <==> exists i :: 0 <= i < n && HostDot(source, i)
    ensures ScanTo(source, n).openWildcard <==> exists i :: 0 <= i < n && OpenWildcard(source, i)
  {
    if n > 0 {
      ScanFinds(source, n - 1);
      assert ScanTo(source, n).hostDot == (ScanTo(source, n - 1).hostDot || HostDot(source, n - 1));
      assert ScanTo(source, n).openWildcard == (ScanTo(source, n - 1).openWildcard || OpenWildcard(source, n - 1));
    }
  }

  lemma {:induction false} ScanCuts(source: string, n: nat)
    requires n <= |source|
    ensures var scan := ScanTo(source, n);
            Alternatives(OUTSIDE, source)
            == scan.alternatives + Continued(source[scan.start..n], Alternatives(ModeAt(source, n), source[n..]))
  {
    if n == 0 {
      assert source[0..] == source && source[0..0] == "";
      ContinuedNothing(Alternatives(OUTSIDE, source));
    } else {
      ScanCuts(source, n - 1);
      ScanFinds(source, n - 1);
      ScanCutsOne(source, n - 1, ScanTo(source, n - 1));
    }
  }

  lemma ScanCutsOne(source: string, i: nat, scan: Scan)
    requires scan.start <= i < |source| && scan.mode == ModeAt(source, i)
    ensures var next := ReadNext(source, i, scan);
            scan.alternatives + Continued(source[scan.start..i], Alternatives(ModeAt(source, i), source[i..]))
            == next.alternatives + Continued(source[next.start..i + 1], Alternatives(ModeAt(source, i + 1), source[i + 1..]))
  {
    ReadsOneText(source, i, scan.start);
    if EndsAlternative(scan.mode, source[i]) {
      Regroup(scan.alternatives, source[scan.start..i],
              Continued(source[i + 1..i + 1], Alternatives(ModeAt(source, i + 1), source[i + 1..])));
    }
  }

  lemma Regroup(a: seq<string>, x: string, b: seq<string>)
    ensures a + ([x] + b) == (a + [x]) + b
  {
  }

  lemma ReadsOneText(source: string, i: nat, start: nat)
    requires start <= i < |source|
    ensures Continued(source[start..i], Alternatives(ModeAt(source, i), source[i..])) ==
            var rest := Alternatives(ModeAt(source, i + 1), source[i + 1..]);
            if EndsAlternative(ModeAt(source, i), source[i])
            then [source[start..i]] + Continued(source[i + 1..i + 1], rest)
            else Continued(source[start..i + 1], rest)
  {
    var m, next := ModeAt(source, i), ModeAt(source, i + 1);
    assert source[i..][0] == source[i] && source[i..][1..] == source[i + 1..];
    assert source[start..i + 1] == source[start..i] + [source[i]] && source[i + 1..i + 1] == "";
    AlternativesContinue(source[start..i], m, next, source[i], source[i..], source[i + 1..]);
  }

  /** One character more, to the parts and to the text before them. */
  lemma AlternativesContinue(before: string, m: Mode, next: Mode, c: char, text: string, after: string)
    requires text != "" && text[0] == c && text[1..] == after && next == Next(m, c)
    ensures var rest := Alternatives(next, after);
            Continued(before, Alternatives(m, text)) ==
            if EndsAlternative(m, c) then [before] + Continued("", rest) else Continued(before + [c], rest)
  {
    var rest := Alternatives(next, after);
    if EndsAlternative(m, c) {
      assert before + "" == before;
      ContinuedNothing(rest);
    } else {
      assert before + ([c] + rest[0]) == before + [c] + rest[0];
    }
  }

  /** The alternatives of any source join back with `|` to that source. */
  lemma {:induction false} AlternativesJoin(m: Mode, text: string)
    ensures Join(Alternatives(m, text), "|") == text
    decreases text
  {
    if text != "" {
      var parts := Alternatives(m, text);
      if EndsAlternative(m, text[0]) {
        AlternativesJoin(m, text[1..]);
        assert parts[1..] == Alternatives(m, text[1..]);
        assert Join(parts, "|") == "" + ("|" + text[1..]);
      } else {
        var rest := Alternatives(Next(m, text[0]), text[1..]);
        AlternativesJoin(Next(m, text[0]), text[1..]);
        JoinContinued([text[0]], rest, "|");
        assert parts == Continued([text[0]], rest);
      }
    }
  }

  lemma JoinContinued(text: string, parts: seq<string>, glue: string)
    requires |parts| >= 1
    ensures Join(Continued(text, parts), glue) == text + Join(parts, glue)
  {
    assert Continued(text, parts)[1..] == parts[1..];
    if |parts| > 1 {
      assert text + (parts[0] + (glue + Join(parts[1..], glue))) == (text + parts[0]) + (glue + Join(parts[1..], glue));
    }
  }

  // ---- syntax trees ----

  datatype Member = Itself(c: char) | Escaped(c: char)

  /** A regular expression; `opening` is what follows a group's parenthesis, such as `?:` or `?<name>`. */
  datatype Regex =
    | Empty
    | Literal(c: char)
    | Escape(c: char)
    | Class(members: seq<Member>)
    | Group(opening: string, body: Regex)
    | Quantified(body: Regex, quantifier: string)
    | Concat(left: Regex, right: Regex)
    | Alt(left: Regex, right: Regex)

  function PrintMembers(members: seq<Member>): string {
    if members == [] then ""
    else (if members[0].Itself? then [members[0].c] else ['\\', members[0].c]) + PrintMembers(members[1..])
  }

  function Print(r: Regex): string {
    match r
    case Empty => ""
    case Literal(c) => [c]
    case Escape(c) => ['\\', c]
    case Class(members) => "[" + PrintMembers(members) + "]"
    case Group(opening, body) => "(" + opening + Print(body) + ")"
    case Quantified(body, quantifier) => Print(body) + quantifier
    case Concat(left, right) => Print(left) + Print(right)
    case Alt(left, right) => Print(left) + "|" + Print(right)
  }

  /** Characters that open or close nothing. */
  predicate Inert(s: string) {
    forall i | 0 <= i < |s| :: s[i] !in {'\\', '[', '(', ')', '|'}
  }

  /**
   * A tree the grammar can give: only an alternation holds an alternation
   * outside a group, and each piece of text is what its place allows.
   */
  predicate WellFormed(r: Regex) {
    match r
    case Empty => true
    case Literal(c) => Inert([c])
    case Escape(_) => true
    case Class(members) => forall i | 0 <= i < |members| :: members[i].Itself? ==> members[i].c != ']' && members[i].c != '\\'
    case Group(opening, body) => Inert(opening) && WellFormed(body)
    case Quantified(body, quantifier) =>
      WellFormed(body) && !body.Alt? && Print(body) != "" && Inert(quantifier) && quantifier != "" && quantifier[|quantifier| - 1] != '$'
    case Concat(left, right) => WellFormed(left) && WellFormed(right) && !left.Alt? && !right.Alt?
    case Alt(left, right) => WellFormed(left) && WellFormed(right)
  }

  /** The top-level alternatives of a tree, printed. */
  function TopLevel(r: Regex): (parts: seq<string>)
    ensures |parts| >= 1
  {
    if r.Alt? then TopLevel(r.left) + TopLevel(r.right) else [Print(r)]
  }

  /** The mode after a text. */
  function After(m: Mode, text: string): Mode
    decreases text
  {
    if text == "" then m else After(Next(m, text[0]), text[1..])
  }

  /** No alternative ends within a text. */
  predicate Unbroken(m: Mode, text: string) {
    Alternatives(m, text) == [text]
  }

  lemma {:induction false} AfterAppend(m: Mode, a: string, b: string)
    ensures After(m, a + b) == After(After(m, a), b)
    decreases a
  {
    if a == "" {
      assert a + b == b;
    } else {
      assert (a + b)[1..] == a[1..] + b;
      AfterAppend(Next(m, a[0]), a[1..], b);
    }
  }

  lemma {:induction false} UnbrokenContinues(m: Mode, a: string, b: string)
    requires Unbroken(m, a)
    ensures Alternatives(m, a + b) == Continued(a, Alternatives(After(m, a), b))
    decreases a
  {
    var rest := Alternatives(After(m, a), b);
    if a == "" {
      assert a + b == b && "" + rest[0] == rest[0];
      ContinuedNothing(rest);
    } else {
      assert (a + b)[1..] == a[1..] + b;
      var tail := Alternatives(Next(m, a[0]), a[1..]);
      var parts := [[a[0]] + tail[0]] + tail[1..];
      assert parts == [a] && |tail| == |parts| && parts[0] == [a[0]] + tail[0];
      assert tail[0] == parts[0][1..];
      UnbrokenContinues(Next(m, a[0]), a[1..], b);
      assert [a[0]] + (a[1..] + rest[0]) == a + rest[0];
    }
  }

  lemma ContinuedNothing(parts: seq<string>)
    requires |parts| >= 1
    ensures Continued("", parts) == parts
  {
    assert "" + parts[0] == parts[0];
    assert [parts[0]] + parts[1..] == parts;
  }

  lemma UnbrokenAppend(m: Mode, a: string, b: string)
    requires Unbroken(m, a) && Unbroken(After(m, a), b)
    ensures Unbroken(m, a + b) && After(m, a + b) == After(After(m, a), b)
  {
    AfterAppend(m, a, b);
    UnbrokenContinues(m, a, b);
  }

  lemma {:induction false} InertIsUnbroken(m: Mode, s: string)
    requires Inert(s) && Plain(m)
    ensures Unbroken(m, s) && After(m, s) == m
  {
    if s != "" {
      InertIsUnbroken(m, s[1..]);
      assert [s[0]] + s[1..] == s;
    }
  }

  lemma {:induction false} MembersAreUnbroken(m: Mode, members: seq<Member>)
    requires m.inClass && !m.escaped
    requires WellFormed(Class(members))
    ensures Unbroken(m, PrintMembers(members)) && After(m, PrintMembers(members)) == m
    decreases members
  {
    if members != [] {
      MembersAreUnbroken(m, members[1..]);
      var head := if members[0].Itself? then [members[0].c] else ['\\', members[0].c];
      HeadIsUnbroken(m, members[0]);
      UnbrokenAppend(m, head, PrintMembers(members[1..]));
    }
  }

  lemma OneUnbroken(m: Mode, c: char)
    requires !EndsAlternative(m, c)
    ensures Unbroken(m, [c]) && After(m, [c]) == Next(m, c)
  {
    assert [c][1..] == "" && [c] + "" == [c];
  }

  lemma PairUnbroken(m: Mode, c: char)
    requires !m.escaped
    ensures Unbroken(m, ['\\', c]) && After(m, ['\\', c]) == m
  {
    OneUnbroken(m, '\\');
    OneUnbroken(m.(escaped := true), c);
    UnbrokenAppend(m, ['\\'], [c]);
    assert ['\\'] + [c] == ['\\', c];
  }

  lemma HeadIsUnbroken(m: Mode, member: Member)
    requires m.inClass && !m.escaped && (member.Itself? ==> member.c != ']' && member.c != '\\')
    ensures var head := if member.Itself? then [member.c] else ['\\', member.c];
            Unbroken(m, head) && After(m, head) == m
  {
    if member.Itself? {
      OneUnbroken(m, member.c);
    } else {
      PairUnbroken(m, member.c);
    }
  }

  /** Read from outside classes and escapes, a printed tree leaves the mode as it was; only a top-level `|` ends an alternative. */
  lemma {:induction false} PrintedIsUnbroken(m: Mode, r: Regex)
    requires Plain(m) && m.depth >= 0 && WellFormed(r) && (m.depth > 0 || !r.Alt?)
    ensures Unbroken(m, Print(r)) && After(m, Print(r)) == m
    decreases r
  {
    match r {
      case Empty =>
      case Literal(c) => InertIsUnbroken(m, [c]);
      case Escape(c) => PairUnbroken(m, c);
      case Class(members) =>
        var inside := m.(inClass := true);
        OneUnbroken(m, '[');
        MembersAreUnbroken(inside, members);
        UnbrokenAppend(m, "[", PrintMembers(members));
        OneUnbroken(inside, ']');
        UnbrokenAppend(m, "[" + PrintMembers(members), "]");
      case Group(opening, body) =>
        var inside := m.(depth := m.depth + 1);
        OneUnbroken(m, '(');
        InertIsUnbroken(inside, opening);
        UnbrokenAppend(m, "(", opening);
        PrintedIsUnbroken(inside, body);
        UnbrokenAppend(m, "(" + opening, Print(body));
        OneUnbroken(inside, ')');
        UnbrokenAppend(m, "(" + opening + Print(body), ")");
      case Quantified(body, quantifier) =>
        PrintedIsUnbroken(m, body);
        InertIsUnbroken(m, quantifier);
        UnbrokenAppend(m, Print(body), quantifier);
      case Concat(left, right) =>
        PrintedIsUnbroken(m, left);
        PrintedIsUnbroken(m, right);
        UnbrokenAppend(m, Print(left), Print(right));
      case Alt(left, right) =>
        PrintedIsUnbroken(m, left);
        PrintedIsUnbroken(m, right);
        OneUnbroken(m, '|');
        UnbrokenAppend(m, Print(left), "|");
        UnbrokenAppend(m, Print(left) + "|", Print(right));
    }
  }

  lemma BarsRegroup(a: string, b: string, text: string)
    ensures (a + "|" + b) + ("|" + text) == a + ("|" + (b + ("|" + text)))
  {
  }

  lemma Assoc(a: seq<string>, b: seq<string>, c: seq<string>)
    ensures a + (b + c) == (a + b) + c
  {
  }

  lemma BarEnds(a: string, text: string)
    requires Unbroken(OUTSIDE, a) && After(OUTSIDE, a) == OUTSIDE
    ensures Alternatives(OUTSIDE, a + ("|" + text)) == [a] + Alternatives(OUTSIDE, text)
  {
    UnbrokenContinues(OUTSIDE, a, "|" + text);
    assert ("|" + text)[1..] == text;
    assert a + "" == a;
  }

  lemma {:induction false} PrintedThenBar(r: Regex, text: string)
    requires WellFormed(r)
    ensures Alternatives(OUTSIDE, Print(r) + ("|" + text)) == TopLevel(r) + Alternatives(OUTSIDE, text)
    decreases r
  {
    if r.Alt? {
      PrintedThenBar(r.right, text);
      PrintedThenBar(r.left, Print(r.right) + ("|" + text));
      BarsRegroup(Print(r.left), Print(r.right), text);
      Assoc(TopLevel(r.left), TopLevel(r.right), Alternatives(OUTSIDE, text));
    } else {
      PrintedIsUnbroken(OUTSIDE, r);
      BarEnds(Print(r), text);
    }
  }

  /** For every pattern, the scanner's alternatives are exactly the top-level alternatives of its syntax tree. */
  lemma {:induction false} SplitsAtTheTopLevel(r: Regex)
    requires WellFormed(r)
    ensures Alternatives(OUTSIDE, Print(r)) == TopLevel(r)
    decreases r
  {
    if r.Alt? {
      PrintedThenBar(r.left, Print(r.right));
      SplitsAtTheTopLevel(r.right);
      assert Print(r.left) + "|" + Print(r.right) == Print(r.left) + ("|" + Print(r.right));
    } else {
      PrintedIsUnbroken(OUTSIDE, r);
    }
  }

  // ---- anchoring ----

  /** The text from `p` on is what the test's expression matches: pairs of backslashes, then the last character, a `$`. */
  predicate PairsThenDollar(s: string, p: nat) {
    && p < |s| && s[|s| - 1] == '$'
    && (|s| - 1 - p) % 2 == 0
    && (forall i | p <= i < |s| - 1 :: s[i] == '\\')
    && (p == 0 || s[p - 1] != '\\')
  }

  /** `startsWith("^")` and a match of the test's expression. */
  predicate IsAnchored(alternative: string) {
    && alternative != "" && alternative[0] == '^'
    && exists p: nat | p < |alternative| :: PairsThenDollar(alternative, p)
  }

  /** Whether a character is escaped: by a backslash before it that is not. */
  predicate IsEscaped(s: string, i: nat)
    requires i < |s|
  {
    i > 0 && s[i - 1] == '\\' && !IsEscaped(s, i - 1)
  }

  lemma {:induction false} RunParity(s: string, p: nat, i: nat)
    requires p <= i < |s| && (p == 0 || s[p - 1] != '\\') && forall k | p <= k < i :: s[k] == '\\'
    ensures IsEscaped(s, i) <==> (i - p) % 2 == 1
    decreases i
  {
    if i > p {
      RunParity(s, p, i - 1);
    }
  }

  /** Where the run of backslashes before a position starts. */
  function RunStart(s: string, i: nat): (p: nat)
    requires i < |s|
    ensures p <= i && (p == 0 || s[p - 1] != '\\') && forall k | p <= k < i :: s[k] == '\\'
  {
    if i == 0 || s[i - 1] != '\\' then i else RunStart(s, i - 1)
  }

  /** Anchored is exactly: a `^` first, and last a `$` that no backslash escapes. */
  lemma AnchoredAtBothEnds(s: string)
    ensures IsAnchored(s) <==> s != "" && s[0] == '^' && s[|s| - 1] == '$' && !IsEscaped(s, |s| - 1)
  {
    if s != "" && s[0] == '^' && s[|s| - 1] == '$' {
      var p := RunStart(s, |s| - 1);
      RunParity(s, p, |s| - 1);
      if !IsEscaped(s, |s| - 1) {
        assert PairsThenDollar(s, p);
      }
      if IsAnchored(s) {
        var q: nat :| q < |s| && PairsThenDollar(s, q);
        RunParity(s, q, |s| - 1);
      }
    }
  }

  // ---- anchoring, on syntax trees ----

  /** A tree's first node is the assertion `^`. */
  predicate OpensWithCaret(r: Regex) {
    match r
    case Literal(c) => c == '^'
    case Quantified(body, _) => OpensWithCaret(body)
    case Concat(left, right) => if Print(left) == "" then OpensWithCaret(right) else OpensWithCaret(left)
    case _ => false
  }

  /** A tree's last node is the assertion `$`, not a `$` escaped or in a class. */
  predicate ClosesWithDollar(r: Regex) {
    match r
    case Literal(c) => c == '$'
    case Concat(left, right) => if Print(right) == "" then ClosesWithDollar(left) else ClosesWithDollar(right)
    case _ => false
  }

  predicate BeginsWith(s: string, c: char) {
    s != "" && s[0] == c
  }

  predicate EndsUnescaped(s: string, c: char) {
    s != "" && s[|s| - 1] == c && !IsEscaped(s, |s| - 1)
  }

  lemma {:induction false} EscapedAppend(a: string, b: string, i: nat)
    requires i < |b| && !EndsUnescaped(a, '\\')
    ensures IsEscaped(a + b, |a| + i) == IsEscaped(b, i)
    decreases i
  {
    var s := a + b;
    if i > 0 {
      EscapedAppend(a, b, i - 1);
      assert s[|a| + i - 1] == b[i - 1];
    } else if a != "" {
      assert s[|a| - 1] == a[|a| - 1];
      EscapedPrefix(a, b, |a| - 1);
    }
  }

  lemma {:induction false} EscapedPrefix(a: string, b: string, i: nat)
    requires i < |a|
    ensures IsEscaped(a + b, i) == IsEscaped(a, i)
    decreases i
  {
    if i > 0 {
      EscapedPrefix(a, b, i - 1);
      assert (a + b)[i - 1] == a[i - 1];
    }
  }

  lemma EndsAppend(a: string, b: string, c: char)
    requires !EndsUnescaped(a, '\\')
    ensures EndsUnescaped(a + b, c) == if b == "" then EndsUnescaped(a, c) else EndsUnescaped(b, c)
  {
    if b == "" {
      assert a + b == a;
    } else {
      EscapedAppend(a, b, |b| - 1);
    }
  }

  /** Text that ends with a character of its own ends neither in an open escape nor in a `$`. */
  lemma EndsWithOwn(s: string, c: char)
    requires s != "" && s[|s| - 1] == c && c !in {'\\', '$'}
    ensures !EndsUnescaped(s, '\\') && !EndsUnescaped(s, '$')
  {
  }

  lemma {:induction false} PrintedEnds(r: Regex)
    requires WellFormed(r) && !r.Alt?
    ensures BeginsWith(Print(r), '^') <==> OpensWithCaret(r)
    ensures EndsUnescaped(Print(r), '$') <==> ClosesWithDollar(r)
    ensures !EndsUnescaped(Print(r), '\\')
    decreases r
  {
    match r {
      case Empty =>
      case Literal(c) => assert Inert([c]) && [c][0] == c;
      case Escape(c) => assert !IsEscaped(['\\', c], 0);
      case Class(members) => EndsWithOwn(Print(r), ']');
      case Group(_, _) => EndsWithOwn(Print(r), ')');
      case Quantified(body, quantifier) =>
        PrintedEnds(body);
        EndsWithOwn(Print(r), quantifier[|quantifier| - 1]);
      case Concat(left, right) =>
        PrintedEnds(left);
        PrintedEnds(right);
        EndsAppend(Print(left), Print(right), '$');
        EndsAppend(Print(left), Print(right), '\\');
    }
  }

  /** The alternation's operands, left to right. */
  function Terms(r: Regex): seq<Regex> {
    if r.Alt? then Terms(r.left) + Terms(r.right) else [r]
  }

  /** A text printed from an operand that holds no alternation of its own. */
  predicate PrintedTerm(text: string, term: Regex) {
    text == Print(term) && WellFormed(term) && !term.Alt?
  }

  lemma {:induction false} TermsPrinted(r: Regex)
    requires WellFormed(r)
    ensures |TopLevel(r)| == |Terms(r)|
    ensures forall i | 0 <= i < |Terms(r)| :: PrintedTerm(TopLevel(r)[i], Terms(r)[i])
    decreases r
  {
    if r.Alt? {
      TermsPrinted(r.left);
      TermsPrinted(r.right);
      BothPrinted(TopLevel(r.left), Terms(r.left), TopLevel(r.right), Terms(r.right));
    }
  }

  lemma BothPrinted(a: seq<string>, s: seq<Regex>, b: seq<string>, t: seq<Regex>)
    requires |a| == |s| && forall i | 0 <= i < |s| :: PrintedTerm(a[i], s[i])
    requires |b| == |t| && forall i | 0 <= i < |t| :: PrintedTerm(b[i], t[i])
    ensures forall i | 0 <= i < |s + t| :: PrintedTerm((a + b)[i], (s + t)[i])
  {
  }

  /** A pattern passes the anchoring check exactly when each alternative of its tree opens with `^` and closes with `$`. */
  lemma ChecksTheTree(r: Regex)
    requires WellFormed(r)
    ensures (forall a | a in Alternatives(OUTSIDE, Print(r)) :: IsAnchored(a))
       <==> (forall t | t in Terms(r) :: OpensWithCaret(t) && ClosesWithDollar(t))
  {
    var texts, terms := TopLevel(r), Terms(r);
    SplitsAtTheTopLevel(r);
    TermsPrinted(r);
    forall i | 0 <= i < |terms| ensures IsAnchored(texts[i]) <==> OpensWithCaret(terms[i]) && ClosesWithDollar(terms[i]) {
      assert PrintedTerm(texts[i], terms[i]);
      AnchoredAtBothEnds(texts[i]);
      PrintedEnds(terms[i]);
    }
    EachOrNone(texts, terms);
  }

  lemma EachOrNone(texts: seq<string>, terms: seq<Regex>)
    requires |texts| == |terms|
    requires forall i | 0 <= i < |terms| :: IsAnchored(texts[i]) <==> OpensWithCaret(terms[i]) && ClosesWithDollar(terms[i])
    ensures (forall a | a in texts :: IsAnchored(a)) <==> (forall t | t in terms :: OpensWithCaret(t) && ClosesWithDollar(t))
  {
    if forall a | a in texts :: IsAnchored(a) {
      forall t | t in terms ensures OpensWithCaret(t) && ClosesWithDollar(t) {
        var i :| 0 <= i < |terms| && terms[i] == t;
        assert texts[i] in texts;
      }
    }
    if forall t | t in terms :: OpensWithCaret(t) && ClosesWithDollar(t) {
      forall a | a in texts ensures IsAnchored(a) {
        var i :| 0 <= i < |texts| && texts[i] == a;
        assert terms[i] in terms;
      }
    }
  }

  // ---- the two flags, on syntax trees ----

  /** Whether a character, with what follows it, is one a flag looks for. */
  type Mark = (char, string) -> bool

  /** A letter or a digit comes first. */
  predicate StartsName(rest: string) {
    rest != "" && (rest[0] in CAPITALS || rest[0] in SMALL_LETTERS || rest[0] in DIGITS)
  }

  /** A dot right before a name. */
  predicate DotBeforeName(c: char, rest: string) {
    c == '.' && StartsName(rest)
  }

  /** The end of a `*`, `+` or `{...}` quantifier right before a name, a `?` that makes it lazy between or not. */
  predicate WildcardBeforeName(c: char, rest: string) {
    && (c == '*' || c == '+' || c == '}')
    && (StartsName(rest) || (rest != "" && rest[0] == '?' && StartsName(rest[1..])))
  }

  /** Some character of a text is one the flag looks for. */
  predicate MarkedText(text: string, after: string, mark: Mark) {
    text != "" && (mark(text[0], text[1..] + after) || MarkedText(text[1..], after, mark))
  }

  /** Some character is, read outside classes and escapes. */
  predicate Marked(m: Mode, text: string, after: string, mark: Mark)
    decreases text
  {
    && text != ""
    && ((Plain(m) && mark(text[0], text[1..] + after)) || Marked(Next(m, text[0]), text[1..], after, mark))
  }

  /**
   * Some node of a tree is what a flag looks for, `after` being printed after
   * it: a literal, or a quantifier's or a group opening's own text; never an
   * escape nor anything of a class.
   */
  predicate OnTree(r: Regex, after: string, mark: Mark)
    decreases r
  {
    match r
    case Empty => false
    case Literal(c) => mark(c, after)
    case Escape(_) => false
    case Class(_) => false
    case Group(opening, body) => MarkedText(opening, Print(body) + ")" + after, mark) || OnTree(body, ")" + after, mark)
    case Quantified(body, quantifier) => OnTree(body, quantifier + after, mark) || MarkedText(quantifier, after, mark)
    case Concat(left, right) => OnTree(left, Print(right) + after, mark) || OnTree(right, after, mark)
    case Alt(left, right) => OnTree(left, "|" + Print(right) + after, mark) || OnTree(right, after, mark)
  }

  /** No flag looks for the characters that open, close, separate or escape. */
  ghost predicate Ignores(mark: Mark) {
    forall c, rest | c in {'\\', '[', '(', ')', '|'} :: !mark(c, rest)
  }

  lemma {:induction false} MarkedAppend(m: Mode, a: string, b: string, after: string, mark: Mark)
    ensures Marked(m, a + b, after, mark) <==> Marked(m, a, b + after, mark) || Marked(After(m, a), b, after, mark)
    decreases a
  {
    if a == "" {
      assert a + b == b;
    } else {
      assert (a + b)[1..] == a[1..] + b;
      assert a[1..] + b + after == a[1..] + (b + after);
      MarkedAppend(Next(m, a[0]), a[1..], b, after, mark);
    }
  }

  lemma {:induction false} InertMarked(m: Mode, text: string, after: string, mark: Mark)
    requires Plain(m) && Inert(text)
    ensures Marked(m, text, after, mark) <==> MarkedText(text, after, mark)
  {
    if text != "" {
      InertMarked(m, text[1..], after, mark);
    }
  }

  lemma OneMarked(m: Mode, c: char, after: string, mark: Mark)
    ensures Marked(m, [c], after, mark) <==> Plain(m) && mark(c, after)
  {
    assert [c][1..] == "" && "" + after == after;
  }

  lemma {:induction false} MembersUnmarked(m: Mode, members: seq<Member>, after: string, mark: Mark)
    requires m.inClass && !m.escaped && WellFormed(Class(members))
    ensures !Marked(m, PrintMembers(members), after, mark)
    decreases members
  {
    if members != [] {
      var head, rest := if members[0].Itself? then [members[0].c] else ['\\', members[0].c], PrintMembers(members[1..]);
      MembersUnmarked(m, members[1..], after, mark);
      HeadIsUnbroken(m, members[0]);
      MarkedAppend(m, head, rest, after, mark);
      if members[0].Itself? {
        OneMarked(m, members[0].c, rest + after, mark);
      } else {
        PairUnmarked(m, members[0].c, rest + after, mark);
      }
    }
  }

  lemma PairUnmarked(m: Mode, c: char, after: string, mark: Mark)
    requires !m.escaped && (Ignores(mark) || m.inClass)
    ensures !Marked(m, ['\\', c], after, mark)
  {
    assert ['\\', c] == ['\\'] + [c];
    MarkedAppend(m, ['\\'], [c], after, mark);
    OneMarked(m, '\\', [c] + after, mark);
    OneUnbroken(m, '\\');
    OneMarked(m.(escaped := true), c, after, mark);
  }

  lemma AfterOne(m: Mode, c: char)
    ensures After(m, [c]) == Next(m, c)
  {
    assert [c][1..] == "";
  }

  /** Outside classes and escapes, a printed tree leaves the mode as it was, at any depth. */
  lemma {:induction false} PrintedKeepsMode(m: Mode, r: Regex)
    requires Plain(m) && WellFormed(r)
    ensures After(m, Print(r)) == m
    decreases r
  {
    match r {
      case Empty =>
      case Literal(c) => InertIsUnbroken(m, [c]);
      case Escape(c) => PairUnbroken(m, c);
      case Class(members) =>
        AfterOne(m, '[');
        AfterAppend(m, "[", PrintMembers(members));
        MembersAreUnbroken(m.(inClass := true), members);
        AfterAppend(m, "[" + PrintMembers(members), "]");
        AfterOne(m.(inClass := true), ']');
      case Group(opening, body) =>
        var inside := m.(depth := m.depth + 1);
        AfterOne(m, '(');
        AfterAppend(m, "(", opening);
        InertIsUnbroken(inside, opening);
        AfterAppend(m, "(" + opening, Print(body));
        PrintedKeepsMode(inside, body);
        AfterAppend(m, "(" + opening + Print(body), ")");
        AfterOne(inside, ')');
      case Quantified(body, quantifier) =>
        PrintedKeepsMode(m, body);
        InertIsUnbroken(m, quantifier);
        AfterAppend(m, Print(body), quantifier);
      case Concat(left, right) =>
        PrintedKeepsMode(m, left);
        PrintedKeepsMode(m, right);
        AfterAppend(m, Print(left), Print(right));
      case Alt(left, right) =>
        PrintedKeepsMode(m, left);
        PrintedKeepsMode(m, right);
        AfterAppend(m, Print(left), "|");
        AfterOne(m, '|');
        AfterAppend(m, Print(left) + "|", Print(right));
    }
  }

  lemma ClassUnmarked(m: Mode, members: seq<Member>, after: string, mark: Mark)
    requires Plain(m) && Ignores(mark) && WellFormed(Class(members))
    ensures !Marked(m, Print(Class(members)), after, mark)
  {
    var inside, text := m.(inClass := true), PrintMembers(members);
    MarkedAppend(m, "[" + text, "]", after, mark);
    MarkedAppend(m, "[", text, "]" + after, mark);
    OneMarked(m, '[', text + ("]" + after), mark);
    AfterOne(m, '[');
    MembersUnmarked(inside, members, "]" + after, mark);
    MembersAreUnbroken(inside, members);
    AfterAppend(m, "[", text);
    OneMarked(inside, ']', after, mark);
  }

  lemma GroupMarked(m: Mode, opening: string, body: Regex, after: string, mark: Mark)
    requires Plain(m) && Ignores(mark) && WellFormed(Group(opening, body))
    ensures Marked(m, Print(Group(opening, body)), after, mark)
       <==> MarkedText(opening, Print(body) + ")" + after, mark)
            || Marked(m.(depth := m.depth + 1), Print(body), ")" + after, mark)
  {
    var inside, text := m.(depth := m.depth + 1), Print(body);
    MarkedAppend(m, "(" + opening + text, ")", after, mark);
    MarkedAppend(m, "(" + opening, text, ")" + after, mark);
    MarkedAppend(m, "(", opening, text + (")" + after), mark);
    assert text + (")" + after) == text + ")" + after;
    OneMarked(m, '(', opening + (text + (")" + after)), mark);
    AfterOne(m, '(');
    InertMarked(inside, opening, text + ")" + after, mark);
    InertIsUnbroken(inside, opening);
    AfterAppend(m, "(", opening);
    PrintedKeepsMode(inside, body);
    AfterAppend(m, "(" + opening, text);
    OneMarked(inside, ')', after, mark);
  }

  lemma AltMarked(m: Mode, left: Regex, right: Regex, after: string, mark: Mark)
    requires Plain(m) && Ignores(mark) && WellFormed(Alt(left, right))
    ensures Marked(m, Print(Alt(left, right)), after, mark)
       <==> Marked(m, Print(left), "|" + Print(right) + after, mark) || Marked(m, Print(right), after, mark)
  {
    MarkedAppend(m, Print(left) + "|", Print(right), after, mark);
    MarkedAppend(m, Print(left), "|", Print(right) + after, mark);
    assert "|" + (Print(right) + after) == "|" + Print(right) + after;
    PrintedKeepsMode(m, left);
    OneMarked(m, '|', Print(right) + after, mark);
    AfterOne(m, '|');
    AfterAppend(m, Print(left), "|");
  }

  /** What the scan finds in a printed tree is what the tree has. */
  lemma {:induction false} PrintedMarked(m: Mode, r: Regex, after: string, mark: Mark)
    requires Plain(m) && WellFormed(r) && Ignores(mark)
    ensures Marked(m, Print(r), after, mark) <==> OnTree(r, after, mark)
    decreases r
  {
    match r {
      case Empty =>
      case Literal(c) => OneMarked(m, c, after, mark);
      case Escape(c) => PairUnmarked(m, c, after, mark);
      case Class(members) => ClassUnmarked(m, members, after, mark);
      case Group(opening, body) =>
        GroupMarked(m, opening, body, after, mark);
        PrintedMarked(m.(depth := m.depth + 1), body, ")" + after, mark);
      case Quantified(body, quantifier) =>
        MarkedAppend(m, Print(body), quantifier, after, mark);
        PrintedMarked(m, body, quantifier + after, mark);
        PrintedKeepsMode(m, body);
        InertMarked(m, quantifier, after, mark);
      case Concat(left, right) =>
        MarkedAppend(m, Print(left), Print(right), after, mark);
        PrintedMarked(m, left, Print(right) + after, mark);
        PrintedKeepsMode(m, left);
        PrintedMarked(m, right, after, mark);
      case Alt(left, right) =>
        AltMarked(m, left, right, after, mark);
        PrintedMarked(m, left, "|" + Print(right) + after, mark);
        PrintedMarked(m, right, after, mark);
    }
  }

  lemma {:induction false} MarkedFrom(source: string, i: nat, mark: Mark)
    requires i <= |source|
    ensures Marked(ModeAt(source, i), source[i..], "", mark)
       <==> exists k :: i <= k < |source| && Plain(ModeAt(source, k)) && mark(source[k], source[k + 1..])
    decreases |source| - i
  {
    if i < |source| {
      MarkedFrom(source, i + 1, mark);
      assert source[i..][1..] == source[i + 1..] && source[i + 1..] + "" == source[i + 1..];
    }
  }

  lemma NameStarts(source: string, at: nat)
    requires at <= |source|
    ensures NameAt(source, at) <==> StartsName(source[at..])
  {
    if at < |source| {
      CapitalsListed(source[at]);
      SmallLettersListed(source[at]);
      DigitsListed(source[at]);
    }
  }

  lemma FlagsAreMarks(source: string, k: nat)
    requires k < |source|
    ensures HostDot(source, k) <==> Plain(ModeAt(source, k)) && DotBeforeName(source[k], source[k + 1..])
    ensures OpenWildcard(source, k) <==> Plain(ModeAt(source, k)) && WildcardBeforeName(source[k], source[k + 1..])
  {
    NameStarts(source, k + 1);
    if k + 1 < |source| && source[k + 1] == '?' {
      NameStarts(source, k + 2);
      assert source[k + 1..][1..] == source[k + 2..];
      CapitalsListed('?');
      SmallLettersListed('?');
      DigitsListed('?');
    }
  }

  /**
   * On the pattern printed from any tree, the scan reports a host name's dot
   * left unescaped exactly when the tree has one, and a wildcard that runs into
   * a host name exactly when the tree has one.
   */
  lemma FlagsTheTree(r: Regex)
    requires WellFormed(r)
    ensures (exists i :: 0 <= i < |Print(r)| && HostDot(Print(r), i)) <==> OnTree(r, "", DotBeforeName)
    ensures (exists i :: 0 <= i < |Print(r)| && OpenWildcard(Print(r), i)) <==> OnTree(r, "", WildcardBeforeName)
  {
    var source := Print(r);
    forall k | 0 <= k < |source|
      ensures HostDot(source, k) <==> Plain(ModeAt(source, k)) && DotBeforeName(source[k], source[k + 1..])
      ensures OpenWildcard(source, k) <==> Plain(ModeAt(source, k)) && WildcardBeforeName(source[k], source[k + 1..])
    {
      FlagsAreMarks(source, k);
    }
    assert source[0..] == source;
    MarkedFrom(source, 0, DotBeforeName);
    MarkedFrom(source, 0, WildcardBeforeName);
    PrintedMarked(OUTSIDE, r, "", DotBeforeName);
    PrintedMarked(OUTSIDE, r, "", WildcardBeforeName);
  }
}
