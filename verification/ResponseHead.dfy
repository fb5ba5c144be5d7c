/**
 * The answer's head: the upstream's fields screened on their way onto the
 * response, and the `Vary` of an answer both sides chose from.
 */
module ResponseHead {
  import opened Wrappers
  import opened Text

  // ---- Vary ----

  /** `toLowerCase` on Latin-1, which is all a header carries. */
  function LowerChar(c: char): char {
    if 'A' <= c <= 'Z' || ('\U{C0}' <= c <= '\U{DE}' && c != '\U{D7}') then (c as int + 32) as char else c
  }

  function Lower(s: string): (r: string)
    ensures |r| == |s| && forall i | 0 <= i < |s| :: r[i] == LowerChar(s[i])
  {
    if s == "" then "" else [LowerChar(s[0])] + Lower(s[1..])
  }

  /** The 26 letters fold to their small ones. */
  lemma FoldsTheLetters(i: nat)
    requires i < 26
    ensures |CAPITALS| == |SMALL_LETTERS| == 26 && LowerChar(CAPITALS[i]) == SMALL_LETTERS[i]
  {
  }

  /** No other ASCII character folds. */
  lemma FoldsNoOther(c: char)
    requires c < '\U{80}'
    ensures LowerChar(c) != c <==> c in CAPITALS
  {
    CapitalsListed(c);
  }

  /** A text spells a folded name, in whatever casing. */
  predicate FoldsTo(text: string, name: string) {
    |text| == |name| && forall i | 0 <= i < |text| :: LowerChar(text[i]) == name[i]
  }

  lemma FoldsToLower(text: string, name: string)
    ensures FoldsTo(text, name) <==> Lower(text) == name
  {
    if FoldsTo(text, name) {
      assert forall i | 0 <= i < |text| :: Lower(text)[i] == name[i];
    }
  }

  /** Beyond ASCII: the Latin-1 capitals, a run of 31 less the multiplication sign, fold 32 further; nothing else does. */
  lemma FoldsLatin1(c: char)
    requires c >= '\U{80}'
    ensures LowerChar(c) != c <==> c in "\U{C0}\U{C1}\U{C2}\U{C3}\U{C4}\U{C5}\U{C6}\U{C7}\U{C8}\U{C9}\U{CA}\U{CB}\U{CC}\U{CD}\U{CE}\U{CF}\U{D0}\U{D1}\U{D2}\U{D3}\U{D4}\U{D5}\U{D6}\U{D8}\U{D9}\U{DA}\U{DB}\U{DC}\U{DD}\U{DE}"
    ensures LowerChar(c) != c ==> LowerChar(c) as int == c as int + 32
  {
  }

  /** Whether a list already has a member, compared case-insensitively. */
  predicate Lists(merged: seq<string>, member: string) {
    exists i :: 0 <= i < |merged| && Lower(merged[i]) == Lower(member)
  }

  function Add(merged: seq<string>, member: string): seq<string> {
    if Lists(merged, member) then merged else merged + [member]
  }

  /** The members in order, each listed once. */
  function AddAll(merged: seq<string>, members: seq<string>): seq<string>
    decreases members
  {
    if members == [] then merged else AddAll(Add(merged, members[0]), members[1..])
  }

  /** Each member where no earlier one is the same in some casing. */
  function Firsts(members: seq<string>): seq<string> {
    if members == [] then []
    else
      var n := |members| - 1;
      Firsts(members[..n])
      + (if SomeSame(members[..n], members[n]) then [] else [members[n]])
  }

  predicate SomeSame(members: seq<string>, m: string) {
    exists j :: 0 <= j < |members| && SameMember(members[j], m)
  }

  predicate SameMember(a: string, b: string) {
    |a| == |b| && forall i | 0 <= i < |a| :: LowerChar(a[i]) == LowerChar(b[i])
  }

  function VaryOf(members: seq<string>): string {
    if "*" in members then "*" else Join(AddAll([], members), ", ")
  }

  function MergeVary(proxy: string, upstream: string): string {
    VaryOf(Members(proxy) + Members(upstream))
  }

  lemma AddsNext(merged: seq<string>, members: seq<string>, i: nat)
    requires i < |members|
    ensures AddAll(merged, members[i..]) == AddAll(Add(merged, members[i]), members[i + 1..])
  {
    assert members[i..][1..] == members[i + 1..];
  }

  lemma NoStar(members: seq<string>)
    requires forall i | 0 <= i < |members| :: members[i] != "*"
    ensures VaryOf(members) == Join(AddAll([], members), ", ")
  {
  }

  /** The loop over both sides' members. */
  method MergeMembers(members: seq<string>) returns (vary: string)
    ensures vary == VaryOf(members)
  {
    var merged: seq<string> := [];
    assert members[0..] == members;
    for i := 0 to |members|
      invariant forall j | 0 <= j < i :: members[j] != "*"
      invariant AddAll([], members) == AddAll(merged, members[i..])
    {
      if members[i] == "*" {
        assert members[i] in members;
        return "*";
      }
      AddsNext(merged, members, i);
      merged := Add(merged, members[i]);
    }
    NoStar(members);
    assert members[|members|..] == [];
    return Join(merged, ", ");
  }

  method MergeVaryLoop(proxy: string, upstream: string) returns (vary: string)
    ensures vary == MergeVary(proxy, upstream)
  {
    vary := MergeMembers(Members(proxy) + Members(upstream));
  }

  lemma SameMemberFolds(a: string, b: string)
    ensures SameMember(a, b) <==> Lower(a) == Lower(b)
  {
    if SameMember(a, b) {
      assert forall i | 0 <= i < |a| :: Lower(a)[i] == Lower(b)[i];
    }
    if Lower(a) == Lower(b) {
      assert forall i | 0 <= i < |a| :: Lower(a)[i] == Lower(b)[i];
    }
  }

  lemma SomeSameAppend(members: seq<string>, last: string, m: string)
    ensures SomeSame(members + [last], m) <==> SomeSame(members, m) || SameMember(last, m)
  {
    var all := members + [last];
    assert all[|members|] == last && forall j | 0 <= j < |members| :: all[j] == members[j];
  }

  lemma {:induction false} FirstsLists(members: seq<string>, m: string)
    ensures Lists(Firsts(members), m) <==> SomeSame(members, m)
  {
    if members != [] {
      var n := |members| - 1;
      var before, last := Firsts(members[..n]), members[n];
      assert members == members[..n] + [last];
      SomeSameAppend(members[..n], last, m);
      FirstsLists(members[..n], m);
      FirstsLists(members[..n], last);
      SameMemberFolds(last, m);
      ListsAppend(before, last, m);
      assert Firsts(members) == if Lists(before, last) then before else before + [last];
      if Lists(before, last) && Lower(last) == Lower(m) {
        SameCase(before, last, m);
      }
    }
  }

  lemma ListsAppend(merged: seq<string>, last: string, m: string)
    ensures Lists(merged + [last], m) <==> Lists(merged, m) || Lower(last) == Lower(m)
  {
    var all := merged + [last];
    assert all[|merged|] == last;
    if Lists(merged, m) {
      StillLists(merged, all, m);
    }
  }

  /** Listing each member in turn keeps exactly the first of each, spelled as it came, in order. */
  lemma {:induction false} ListsTheFirsts(members: seq<string>)
    ensures AddAll([], members) == Firsts(members)
  {
    if members != [] {
      var n := |members| - 1;
      ListsTheFirsts(members[..n]);
      AddAllAppend([], members[..n], [members[n]]);
      assert members == members[..n] + [members[n]];
      FirstsLists(members[..n], members[n]);
      assert AddAll(Firsts(members[..n]), [members[n]]) == Add(Firsts(members[..n]), members[n]);
    }
  }

  /** No member is listed twice, whatever its casing. */
  lemma {:induction false} ListsEachOnce(members: seq<string>)
    ensures forall i, j | 0 <= i < j < |Firsts(members)| :: !SameMember(Firsts(members)[i], Firsts(members)[j])
  {
    if members != [] {
      var n := |members| - 1;
      var before, all := Firsts(members[..n]), Firsts(members);
      ListsEachOnce(members[..n]);
      FirstsLists(members[..n], members[n]);
      forall i, j | 0 <= i < j < |all| ensures !SameMember(all[i], all[j]) {
        assert all[i] == before[i];
        if j == |before| {
          SameMemberFolds(all[i], all[j]);
        }
      }
    }
  }

  /**
   * A merged `Vary` reads back as `*` alone when either side lists it, and else
   * as the proxy's members and then the upstream's, each where no earlier one
   * is the same in some casing.
   */
  lemma MergesTheFirsts(proxy: string, upstream: string)
    ensures var members := Members(proxy) + Members(upstream);
            && (Members(MergeVary(proxy, upstream)) == if "*" in members then ["*"] else Firsts(members))
            && (forall i, j | 0 <= i < j < |Firsts(members)| :: !SameMember(Firsts(members)[i], Firsts(members)[j]))
  {
    MergeReadsBack(proxy, upstream);
    ListsTheFirsts(Members(proxy) + Members(upstream));
    ListsEachOnce(Members(proxy) + Members(upstream));
  }

  lemma {:induction false} AddAllMembers(merged: seq<string>, members: seq<string>)
    ensures forall s | s in AddAll(merged, members) :: s in merged || s in members
    ensures merged <= AddAll(merged, members)
    ensures forall s | s in members :: Lists(AddAll(merged, members), s)
    decreases members
  {
    if members != [] {
      var next := Add(merged, members[0]);
      AddAllMembers(next, members[1..]);
      assert Lists(next, members[0]) by {
        if !Lists(merged, members[0]) { assert next[|merged|] == members[0]; }
      }
      StillLists(next, AddAll(merged, members), members[0]);
    }
  }

  lemma StillLists(merged: seq<string>, longer: seq<string>, member: string)
    requires merged <= longer && Lists(merged, member)
    ensures Lists(longer, member)
  {
    var i :| 0 <= i < |merged| && Lower(merged[i]) == Lower(member);
    assert longer[i] == merged[i];
  }

  /** Listing members that were themselves listed once comes to listing them all in turn. */
  lemma {:induction false} AddAllListed(a: seq<string>, x: seq<string>, members: seq<string>)
    ensures AddAll(a, AddAll(x, members)) == AddAll(AddAll(a, x), members)
    decreases members
  {
    if members != [] {
      var h := members[0];
      AddAllListed(a, Add(x, h), members[1..]);
      if Lists(x, h) {
        var i :| 0 <= i < |x| && Lower(x[i]) == Lower(h);
        AddAllMembers(a, x);
        assert x[i] in x && Lists(AddAll(a, x), x[i]);
        SameCase(AddAll(a, x), x[i], h);
      } else {
        AddAllAppend(a, x, [h]);
        assert AddAll(AddAll(a, x), [h]) == Add(AddAll(a, x), h);
      }
    }
  }

  lemma SameCase(merged: seq<string>, a: string, b: string)
    requires Lower(a) == Lower(b) && Lists(merged, a)
    ensures Lists(merged, b)
  {
  }

  lemma {:induction false} AddAllAppend(merged: seq<string>, x: seq<string>, y: seq<string>)
    ensures AddAll(merged, x + y) == AddAll(AddAll(merged, x), y)
    decreases x
  {
    if x == [] {
      assert x + y == y;
    } else {
      assert (x + y)[1..] == x[1..] + y;
      AddAllAppend(Add(merged, x[0]), x[1..], y);
    }
  }

  /** What a merged value reads back as: `*` alone, or the members listed once. */
  function Listed(members: seq<string>): seq<string> {
    if "*" in members then ["*"] else AddAll([], members)
  }

  lemma VaryReadsBack(members: seq<string>)
    requires forall s | s in members :: IsMember(s)
    ensures Members(VaryOf(members)) == Listed(members)
  {
    if "*" in members {
      MembersOfOne("*");
    } else {
      AddAllMembers([], members);
      if AddAll([], members) == [] {
        MembersOfSpace("");
      } else {
        PrintedMembers(AddAll([], members));
      }
    }
  }

  lemma MergeReadsBack(a: string, b: string)
    ensures Members(MergeVary(a, b)) == Listed(Members(a) + Members(b))
  {
    MembersAreMembers(a);
    MembersAreMembers(b);
    VaryReadsBack(Members(a) + Members(b));
  }

  lemma ListedLeft(x: seq<string>, y: seq<string>)
    ensures VaryOf(Listed(x) + y) == VaryOf(x + y)
  {
    AddAllMembers([], x);
    if "*" in x {
      assert "*" in x + y && Listed(x)[0] == "*" && "*" in Listed(x) + y;
    } else {
      assert "*" in Listed(x) + y <==> "*" in x + y;
      AddAllAppend([], AddAll([], x), y);
      AddAllAppend([], x, y);
      AddAllListed([], [], x);
    }
  }

  lemma ListedRight(x: seq<string>, y: seq<string>)
    ensures VaryOf(x + Listed(y)) == VaryOf(x + y)
  {
    AddAllMembers([], y);
    if "*" in y {
      assert Listed(y)[0] == "*" && "*" in x + Listed(y) && "*" in x + y;
    } else {
      assert "*" in x + Listed(y) <==> "*" in x + y;
      AddAllAppend([], x, AddAll([], y));
      AddAllAppend([], x, y);
      AddAllListed(AddAll([], x), [], y);
    }
  }

  lemma ListedAssociative(x: seq<string>, y: seq<string>, z: seq<string>)
    ensures VaryOf(Listed(x + y) + z) == VaryOf(x + Listed(y + z))
  {
    ListedLeft(x + y, z);
    ListedRight(x, y + z);
    assert (x + y) + z == x + (y + z);
  }

  /** Merging is associative, as section 12.5.5 of RFC 9110 lets a chain of selections be. */
  lemma MergeVaryAssociative(a: string, b: string, c: string)
    ensures MergeVary(MergeVary(a, b), c) == MergeVary(a, MergeVary(b, c))
  {
    MergeReadsBack(a, b);
    MergeReadsBack(b, c);
    ListedAssociative(Members(a), Members(b), Members(c));
  }

  lemma {:induction false} NothingNew(merged: seq<string>, members: seq<string>)
    requires forall s | s in members :: Lists(merged, s)
    ensures AddAll(merged, members) == merged
    decreases members
  {
    if members != [] {
      assert members[0] in members;
      NothingNew(merged, members[1..]);
    }
  }

  /** A side merged in once more adds nothing, and a merged value merged with itself is itself. */
  lemma MergeVaryIdempotent(a: string, b: string)
    ensures MergeVary(MergeVary(a, b), b) == MergeVary(a, b)
    ensures MergeVary(a, MergeVary(a, b)) == MergeVary(a, b)
    ensures MergeVary(MergeVary(a, b), MergeVary(a, b)) == MergeVary(a, b)
  {
    MergeReadsBack(a, b);
    ListedIdempotent(Members(a), Members(b));
  }

  lemma ListedIdempotent(x: seq<string>, y: seq<string>)
    ensures VaryOf(Listed(x + y) + y) == VaryOf(x + y)
    ensures VaryOf(x + Listed(x + y)) == VaryOf(x + y)
    ensures VaryOf(Listed(x + y) + Listed(x + y)) == VaryOf(x + y)
  {
    ListedLeft(x + y, y);
    RepeatedMembers(x + y, y);
    ListedRight(x, x + y);
    RepeatedFirst(x, y);
    ListedLeft(x + y, Listed(x + y));
    ListedRight(x + y, x + y);
    RepeatedMembers(x + y, x + y);
  }

  lemma RepeatedFirst(x: seq<string>, y: seq<string>)
    ensures VaryOf(x + (x + y)) == VaryOf(x + y)
  {
    assert "*" in x + (x + y) <==> "*" in x + y;
    AddAllMembers([], x);
    AddAllAppend([], x, x + y);
    AddAllAppend(AddAll([], x), x, y);
    NothingNew(AddAll([], x), x);
    AddAllAppend([], x, y);
  }

  lemma RepeatedMembers(x: seq<string>, y: seq<string>)
    requires forall s | s in y :: s in x
    ensures VaryOf(x + y) == VaryOf(x)
  {
    assert "*" in x + y <==> "*" in x;
    AddAllMembers([], x);
    AddAllAppend([], x, y);
    NothingNew(AddAll([], x), y);
  }

  /** `*` on either side is the whole answer. */
  lemma StarAbsorbs(a: string, b: string)
    ensures "*" in Members(a) || "*" in Members(b) ==> MergeVary(a, b) == "*"
    ensures MergeVary("*", b) == "*" == MergeVary(a, "*")
  {
    MembersOfOne("*");
  }

  // ---- the screened head ----

  /** A header's value: one text, or several under the one name. */
  datatype Value = One(text: string) | Many(texts: seq<string>)

  type Headers = map<string, Value>

  /** A field as the upstream sends it. */
  type Line = (string, Value)

  function ListText(value: Value): string {
    match value
    case One(text) => text
    case Many(texts) => Join(texts, ",")
  }

  /** The upstream's own connection's fields, beside `Connection`. */
  const UPSTREAM_HOP_ONLY: set<string> :=
    {"keep-alive", "proxy-connection", "te", "upgrade", "trailer", "proxy-authenticate"}

  function LowerAll(names: seq<string>): (r: seq<string>)
    ensures |r| == |names| && forall i | 0 <= i < |names| :: r[i] == Lower(names[i])
  {
    if names == [] then [] else [Lower(names[0])] + LowerAll(names[1..])
  }

  /** The field names a `Connection` value lists, lower-cased. */
  function ConnectionOptions(connection: string): seq<string> {
    LowerAll(Members(connection))
  }

  /** A field the stage lets onto the response at all. */
  predicate Passes(proxyOnly: set<string>, field: string) {
    field != "connection" && field !in UPSTREAM_HOP_ONLY && field !in proxyOnly
  }

  /** The response's header map and what the upstream's `Connection` named so far. */
  datatype Head = Head(headers: Headers, named: seq<string>)

  function SetHeader(preset: Headers, proxyOnly: set<string>, head: Head, name: string, value: Value): Head {
    var field := Lower(name);
    if field == "connection" then head.(named := ConnectionOptions(ListText(value)))
    else if field in UPSTREAM_HOP_ONLY || field in proxyOnly then head
    else if field !in preset then head.(headers := head.headers[field := value])
    else if field == "vary" then
      head.(headers := head.headers[field := One(MergeVary(ListText(preset[field]), ListText(value)))])
    else head
  }

  /** Every field of the upstream's head in turn, onto the proxy's. */
  function SetAll(preset: Headers, proxyOnly: set<string>, fields: seq<Line>): Head {
    if fields == [] then Head(preset, [])
    else
      var last := fields[|fields| - 1];
      SetHeader(preset, proxyOnly, SetAll(preset, proxyOnly, fields[..|fields| - 1]), last.0, last.1)
  }

  /** What writing the head takes away again, or puts back. */
  function Unname(preset: Headers, headers: Headers, named: seq<string>): Headers
    decreases named
  {
    if named == [] then headers
    else if named[0] in preset then Unname(preset, headers[named[0] := preset[named[0]]], named[1..])
    else Unname(preset, headers - {named[0]}, named[1..])
  }

  function WrittenHead(preset: Headers, proxyOnly: set<string>, fields: seq<Line>): Headers {
    var head := SetAll(preset, proxyOnly, fields);
    Unname(preset, head.headers, head.named)
  }

  // ---- the head as a rule, with no order in it ----

  /** The upstream's fields by lower-cased name. */
  function ByName(fields: seq<Line>): Headers {
    if fields == [] then map[]
    else
      var last := fields[|fields| - 1];
      ByName(fields[..|fields| - 1])[Lower(last.0) := last.1]
  }

  predicate DistinctNames(fields: seq<Line>) {
    fields == []
    || (DistinctNames(fields[..|fields| - 1]) && Lower(fields[|fields| - 1].0) !in ByName(fields[..|fields| - 1]))
  }

  function Named(upstream: Headers): seq<string> {
    if "connection" in upstream then ConnectionOptions(ListText(upstream["connection"])) else []
  }

  function Get(headers: Headers, field: string): Option<Value> {
    if field in headers then Some(headers[field]) else None
  }

  /** A field's value once the upstream's fields are set, before the head is written. */
  function Offered(preset: Headers, proxyOnly: set<string>, upstream: Headers, field: string): Option<Value> {
    if field in upstream && Passes(proxyOnly, field) then
      (if field !in preset then Some(upstream[field])
       else if field == "vary" then Some(One(MergeVary(ListText(preset[field]), ListText(upstream[field]))))
       else Some(preset[field]))
    else Get(preset, field)
  }

  /**
   * The head the caller is sent: the proxy's fields at the proxy's values, its
   * `Vary` with the upstream's members unless named, and the upstream's fields
   * that are neither its connection's, the proxy's only, nor named.
   */
  function Screened(preset: Headers, proxyOnly: set<string>, upstream: Headers, field: string): Option<Value> {
    if field in Named(upstream) then Get(preset, field) else Offered(preset, proxyOnly, upstream, field)
  }

  lemma {:induction false} SetAllNames(preset: Headers, proxyOnly: set<string>, fields: seq<Line>)
    requires DistinctNames(fields)
    ensures SetAll(preset, proxyOnly, fields).named == Named(ByName(fields))
  {
    if fields != [] {
      SetAllNames(preset, proxyOnly, fields[..|fields| - 1]);
    }
  }

  lemma {:induction false} SetAllOffers(preset: Headers, proxyOnly: set<string>, fields: seq<Line>, f: string)
    requires DistinctNames(fields)
    ensures Get(SetAll(preset, proxyOnly, fields).headers, f) == Offered(preset, proxyOnly, ByName(fields), f)
  {
    if fields != [] {
      var before, last := fields[..|fields| - 1], fields[|fields| - 1];
      SetAllOffers(preset, proxyOnly, before, f);
      SetOffers(preset, proxyOnly, SetAll(preset, proxyOnly, before), ByName(before), last, f);
    }
  }

  /** One field more, of a name not yet set. */
  lemma SetOffers(preset: Headers, proxyOnly: set<string>, head: Head, upstream: Headers, last: Line, f: string)
    requires Lower(last.0) !in upstream && Get(head.headers, f) == Offered(preset, proxyOnly, upstream, f)
    ensures Get(SetHeader(preset, proxyOnly, head, last.0, last.1).headers, f)
         == Offered(preset, proxyOnly, upstream[Lower(last.0) := last.1], f)
  {
  }

  lemma {:induction false} UnnameTakesAway(preset: Headers, headers: Headers, named: seq<string>)
    ensures forall f :: Get(Unname(preset, headers, named), f) ==
                        if f in named then Get(preset, f) else Get(headers, f)
    decreases named
  {
    if named != [] {
      var next := if named[0] in preset then headers[named[0] := preset[named[0]]] else headers - {named[0]};
      UnnameTakesAway(preset, next, named[1..]);
      assert forall f :: f in named <==> f == named[0] || f in named[1..];
    }
  }

  /** The written head is exactly the rule's, field by field. */
  lemma WrittenHeadIsScreened(preset: Headers, proxyOnly: set<string>, fields: seq<Line>)
    requires DistinctNames(fields)
    ensures forall f :: Get(WrittenHead(preset, proxyOnly, fields), f) == Screened(preset, proxyOnly, ByName(fields), f)
  {
    var head := SetAll(preset, proxyOnly, fields);
    SetAllNames(preset, proxyOnly, fields);
    UnnameTakesAway(preset, head.headers, head.named);
    forall f ensures Get(WrittenHead(preset, proxyOnly, fields), f) == Screened(preset, proxyOnly, ByName(fields), f) {
      SetAllOffers(preset, proxyOnly, fields, f);
    }
  }

  /** The upstream's `Connection` lists the field, in some casing, with any slack around it. */
  ghost predicate KeptOnItsHop(fields: seq<Line>, field: string) {
    exists line, member ::
      line in fields && FoldsTo(line.0, "connection") && member in Members(ListText(line.1)) && FoldsTo(member, field)
  }

  lemma OptionsAreTheMembers(connection: string, field: string)
    ensures field in ConnectionOptions(connection) <==> exists member :: member in Members(connection) && FoldsTo(member, field)
  {
    var members, options := Members(connection), ConnectionOptions(connection);
    forall m ensures FoldsTo(m, field) <==> Lower(m) == field {
      FoldsToLower(m, field);
    }
    if field in options {
      var i :| 0 <= i < |members| && options[i] == field;
      assert members[i] in members;
    }
    if member :| member in members && FoldsTo(member, field) {
      var i :| 0 <= i < |members| && members[i] == member;
      assert options[i] == field;
    }
  }

  lemma NamedIsKept(fields: seq<Line>, field: string)
    requires DistinctNames(fields)
    ensures field in Named(ByName(fields)) <==> KeptOnItsHop(fields, field)
  {
    FieldsAreByName(fields);
    if "connection" in ByName(fields) {
      var line := ByNameIsOfTheFields(fields, "connection");
      FoldsToLower(line.0, "connection");
      OptionsAreTheMembers(ListText(line.1), field);
    }
    if line, member :| line in fields && FoldsTo(line.0, "connection")
                       && member in Members(ListText(line.1)) && FoldsTo(member, field) {
      FoldsToLower(line.0, "connection");
      OptionsAreTheMembers(ListText(line.1), field);
    }
  }

  /** A field the upstream's `Connection` names, however it spells it, reaches the caller only as the proxy set it. */
  lemma NamedFieldsStay(preset: Headers, proxyOnly: set<string>, fields: seq<Line>, field: string)
    requires DistinctNames(fields) && KeptOnItsHop(fields, field)
    ensures Get(WrittenHead(preset, proxyOnly, fields), field) == Get(preset, field)
  {
    NamedIsKept(fields, field);
    WrittenHeadIsScreened(preset, proxyOnly, fields);
  }

  /** Nor do the connection's own fields, whatever is named. */
  lemma HopFieldsStay(preset: Headers, proxyOnly: set<string>, fields: seq<Line>, field: string)
    requires DistinctNames(fields)
    requires field in proxyOnly
          || field in {"connection", "keep-alive", "proxy-connection", "te", "upgrade", "trailer", "proxy-authenticate"}
    ensures Get(WrittenHead(preset, proxyOnly, fields), field) == Get(preset, field)
  {
    WrittenHeadIsScreened(preset, proxyOnly, fields);
  }

  /** Every other field the upstream sends, however it spells its name, reaches the caller: as sent, unless the proxy set it. */
  lemma OtherFieldsPass(preset: Headers, proxyOnly: set<string>, fields: seq<Line>, line: Line, field: string)
    requires DistinctNames(fields) && line in fields && FoldsTo(line.0, field) && !KeptOnItsHop(fields, field)
    requires field !in proxyOnly
    requires field !in {"connection", "keep-alive", "proxy-connection", "te", "upgrade", "trailer", "proxy-authenticate"}
    ensures Get(WrittenHead(preset, proxyOnly, fields), field) ==
            if field !in preset then Some(line.1)
            else if field == "vary" then Some(One(MergeVary(ListText(preset[field]), ListText(line.1))))
            else Some(preset[field])
  {
    NotOfTheHop(proxyOnly, field);
    NamedIsKept(fields, field);
    FoldsToLower(line.0, field);
    FieldsAreByName(fields);
    WrittenHeadIsScreened(preset, proxyOnly, fields);
    PassingField(preset, proxyOnly, ByName(fields), field);
  }

  lemma NotOfTheHop(proxyOnly: set<string>, field: string)
    requires field !in proxyOnly
    requires field !in {"connection", "keep-alive", "proxy-connection", "te", "upgrade", "trailer", "proxy-authenticate"}
    ensures Passes(proxyOnly, field)
  {
  }

  lemma PassingField(preset: Headers, proxyOnly: set<string>, upstream: Headers, field: string)
    requires field in upstream && Passes(proxyOnly, field) && field !in Named(upstream)
    ensures Screened(preset, proxyOnly, upstream, field) ==
            if field !in preset then Some(upstream[field])
            else if field == "vary" then Some(One(MergeVary(ListText(preset[field]), ListText(upstream[field]))))
            else Some(preset[field])
  {
  }

  /** A field sent under one name several times is one list: the members of each value in turn. */
  lemma {:induction false} ManyTextsAreOneList(texts: seq<string>)
    ensures Members(ListText(Many(texts))) == AllMembers(texts)
  {
    if texts == [] {
      MembersOfSpace("");
    } else if |texts| == 1 {
      assert Members(texts[0]) + [] == Members(texts[0]);
    } else {
      ManyTextsAreOneList(texts[1..]);
      assert ListText(Many(texts)) == texts[0] + ([','] + ListText(Many(texts[1..])));
      MembersAppend(texts[0], ListText(Many(texts[1..])));
    }
  }

  function AllMembers(texts: seq<string>): seq<string> {
    if texts == [] then [] else Members(texts[0]) + AllMembers(texts[1..])
  }

  lemma SameFields(x: Headers, y: Headers)
    requires forall f :: Get(x, f) == Get(y, f)
    ensures x == y
  {
    assert forall f | f in x :: Get(x, f) == Some(x[f]);
    assert forall f | f in y :: Get(y, f) == Some(y[f]);
    assert x.Keys == y.Keys;
  }

  // ---- the order fields come in ----

  ghost predicate PairwiseDistinct(fields: seq<Line>) {
    forall i, j | 0 <= i < j < |fields| :: Lower(fields[i].0) != Lower(fields[j].0)
  }

  /** With distinct names, what is kept by name is exactly the fields sent. */
  lemma {:induction false} FieldsAreByName(fields: seq<Line>)
    requires DistinctNames(fields)
    ensures forall p | p in fields :: Get(ByName(fields), Lower(p.0)) == Some(p.1)
  {
    if fields != [] {
      FieldsAreByName(fields[..|fields| - 1]);
      assert fields == fields[..|fields| - 1] + [fields[|fields| - 1]];
    }
  }

  lemma {:induction false} ByNameIsOfTheFields(fields: seq<Line>, f: string) returns (p: Line)
    requires f in ByName(fields)
    ensures p in fields && Lower(p.0) == f
  {
    var before, last := fields[..|fields| - 1], fields[|fields| - 1];
    assert fields == before + [last];
    if f == Lower(last.0) {
      p := last;
    } else {
      p := ByNameIsOfTheFields(before, f);
    }
  }

  lemma {:induction false} DistinctIsPairwise(fields: seq<Line>)
    ensures DistinctNames(fields) <==> PairwiseDistinct(fields)
  {
    if fields != [] {
      var before, last := fields[..|fields| - 1], fields[|fields| - 1];
      DistinctIsPairwise(before);
      if DistinctNames(before) {
        LastIsNew(before, last);
        assert PairwiseDistinct(before);
        assert fields == before + [last];
      }
      if PairwiseDistinct(fields) {
        assert forall i | 0 <= i < |before| :: before[i] == fields[i];
      }
    }
  }

  /** A name is kept already exactly when some field before has it. */
  lemma LastIsNew(before: seq<Line>, last: Line)
    requires DistinctNames(before)
    ensures Lower(last.0) in ByName(before) <==> exists i :: 0 <= i < |before| && Lower(before[i].0) == Lower(last.0)
  {
    FieldsAreByName(before);
    if Lower(last.0) in ByName(before) {
      var p := ByNameIsOfTheFields(before, Lower(last.0));
      var i :| 0 <= i < |before| && before[i] == p;
    }
    if i :| 0 <= i < |before| && Lower(before[i].0) == Lower(last.0) {
      assert before[i] in before;
    }
  }

  lemma {:induction false} EachFieldOnce(fields: seq<Line>, p: Line)
    requires PairwiseDistinct(fields)
    ensures multiset(fields)[p] <= 1
  {
    if fields != [] {
      var before, last := fields[..|fields| - 1], fields[|fields| - 1];
      assert fields == before + [last];
      EachFieldOnce(before, p);
      assert forall i | 0 <= i < |before| :: before[i] == fields[i];
      assert last !in before;
    }
  }

  /** Rearranged, distinctly named fields are still distinctly named. */
  lemma RearrangedIsDistinct(a: seq<Line>, b: seq<Line>)
    requires PairwiseDistinct(a) && multiset(a) == multiset(b)
    ensures PairwiseDistinct(b)
  {
    forall i, j | 0 <= i < j < |b| ensures Lower(b[i].0) != Lower(b[j].0) {
      assert b[i] in multiset(a) && b[j] in multiset(a);
      if b[i] == b[j] {
        assert b == b[..j] + [b[j]] + b[j + 1..] && b[..j][i] == b[i];
        assert multiset(b)[b[i]] >= 2;
        EachFieldOnce(a, b[i]);
      } else {
        var k :| 0 <= k < |a| && a[k] == b[i];
        var l :| 0 <= l < |a| && a[l] == b[j];
        assert k < l || l < k;
      }
    }
  }

  lemma RearrangedByName(a: seq<Line>, b: seq<Line>)
    requires DistinctNames(a) && DistinctNames(b) && multiset(a) == multiset(b)
    ensures ByName(a) == ByName(b)
  {
    FieldsAreByName(a);
    FieldsAreByName(b);
    forall f ensures Get(ByName(a), f) == Get(ByName(b), f) {
      if f in ByName(a) {
        var p := ByNameIsOfTheFields(a, f);
        assert p in multiset(a) && p in b;
      } else if f in ByName(b) {
        var p := ByNameIsOfTheFields(b, f);
        assert p in multiset(b) && p in a;
      }
    }
    SameFields(ByName(a), ByName(b));
  }

  /**
   * In whatever order the upstream's distinctly named fields come, `Connection`
   * before or after those it names, the written head is the same.
   */
  lemma OrderDoesNotMatter(preset: Headers, proxyOnly: set<string>, a: seq<Line>, b: seq<Line>)
    requires DistinctNames(a) && multiset(a) == multiset(b)
    ensures DistinctNames(b)
    ensures WrittenHead(preset, proxyOnly, a) == WrittenHead(preset, proxyOnly, b)
  {
    DistinctIsPairwise(a);
    DistinctIsPairwise(b);
    RearrangedIsDistinct(a, b);
    RearrangedByName(a, b);
    WrittenHeadIsScreened(preset, proxyOnly, a);
    WrittenHeadIsScreened(preset, proxyOnly, b);
    SameFields(WrittenHead(preset, proxyOnly, a), WrittenHead(preset, proxyOnly, b));
  }

  // ---- the response itself ----

  class Response {
    const preset: Headers
    const proxyOnly: set<string>
    var headers: Headers
    var named: seq<string>
    var sendDate: bool

    ghost function State(): Head
      reads this
    {
      Head(headers, named)
    }

    /** The stage takes over a response whose head the proxy has set. */
    constructor (headers: Headers, proxyOnly: set<string>, sendDate: bool)
      ensures preset == headers && this.proxyOnly == proxyOnly
      ensures State() == SetAll(preset, proxyOnly, []) && this.sendDate == sendDate
    {
      preset, this.proxyOnly, this.headers, named, this.sendDate := headers, proxyOnly, headers, [], sendDate;
    }

    method SetUpstreamHeader(name: string, value: Value)
      modifies this`headers, this`named
      ensures State() == SetHeader(preset, proxyOnly, old(State()), name, value)
    {
      var field := Lower(name);
      if field == "connection" {
        named := ConnectionOptions(ListText(value));
        return;
      }
      if field in UPSTREAM_HOP_ONLY || field in proxyOnly {
        return;
      }
      if field !in preset {
        headers := headers[field := value];
        return;
      }
      if field == "vary" {
        var merged := MergeVaryLoop(ListText(preset[field]), ListText(value));
        headers := headers[field := One(merged)];
      }
    }

    /** Node's `removeHeader`: removing `Date` turns off the one it would add. */
    method RemoveHeader(name: string)
      modifies this`headers, this`sendDate
      ensures headers == old(headers) - {name}
      ensures sendDate == (old(sendDate) && name != "date")
    {
      headers := headers - {name};
      if name == "date" {
        sendDate := false;
      }
    }

    method WriteHead()
      modifies this`headers, this`sendDate
      ensures headers == Unname(preset, old(headers), named) && sendDate == old(sendDate)
    {
      var kept := sendDate;
      for i := 0 to |named|
        invariant Unname(preset, old(headers), named) == Unname(preset, headers, named[i..])
      {
        assert named[i..][1..] == named[i + 1..];
        if named[i] in preset {
          headers := headers[named[i] := preset[named[i]]];
        } else if named[i] in headers {
          RemoveHeader(named[i]);
        } else {
          assert headers - {named[i]} == headers;
        }
      }
      sendDate := kept;
    }

    /** The head goes back to precisely the one the proxy had set, with nothing held against it. */
    method Restore()
      modifies this
      ensures headers == preset && named == [] && sendDate == old(sendDate)
      ensures State() == SetAll(preset, proxyOnly, [])
    {
      named := [];
      var kept := sendDate;
      var names := headers.Keys;
      while names != {}
        invariant names <= headers.Keys && named == []
        invariant headers.Keys <= names + preset.Keys
        decreases names
      {
        var name :| name in names;
        if name !in preset {
          RemoveHeader(name);
        }
        names := names - {name};
      }
      var fields := preset.Keys;
      while fields != {}
        invariant fields <= preset.Keys && headers.Keys <= preset.Keys && named == []
        invariant forall f | f in preset.Keys - fields :: f in headers && headers[f] == preset[f]
        decreases fields
      {
        var field :| field in fields;
        headers := headers[field := preset[field]];
        fields := fields - {field};
      }
      sendDate := kept;
    }
  }
}
