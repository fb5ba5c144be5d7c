/**
 * The ranges `auth.injection.trustedProxies` is written in, and which of them
 * alone trust every address of a family.
 */
module AddressRange {
  import opened Wrappers
  import opened Text

  datatype Family = IPv4 | IPv6

  function Width(family: Family): nat {
    if family.IPv4? then 32 else 128
  }

  // ---- the text ----

  /** What `node:net` says of a text: the family of the address it is, and the address's value. */
  datatype Grammar = Grammar(isIp: string -> Option<Family>, value: string -> nat)

  /** No address holds a `/`, and its value fits its family. */
  ghost predicate Sensible(net: Grammar) {
    forall a :: net.isIp(a).Some? ==> '/' !in a && net.value(a) < Pow2(Width(net.isIp(a).value))
  }

  /** The family of an address another host can reach: one with no zone. */
  function IpVersion(net: Grammar, text: string): Option<Family> {
    if '%' in text then None else net.isIp(text)
  }

  predicate Digit(c: char) {
    '0' <= c <= '9'
  }

  /** `0`, or up to three digits the first of which is not zero. */
  predicate IsPrefixText(t: string) {
    t == "0" || (1 <= |t| <= 3 && t[0] != '0' && forall i | 0 <= i < |t| :: Digit(t[i]))
  }

  function Number(t: string): nat
    requires forall i | 0 <= i < |t| :: Digit(t[i])
  {
    if t == "" then 0
    else
      assert Digit(t[|t| - 1]);
      Number(t[..|t| - 1]) * 10 + (t[|t| - 1] as int - '0' as int)
  }

  datatype Range = Range(address: string, prefix: nat, family: Family)

  function ParseRange(net: Grammar, entry: string): Option<Range> {
    var parts := Split(entry, '/');
    if |parts| > 2 || IpVersion(net, parts[0]).None? then None
    else
      var family := IpVersion(net, parts[0]).value;
      if |parts| == 1 then Some(Range(parts[0], Width(family), family))
      else if !IsPrefixText(parts[1]) then None
      else
        var prefix := Number(parts[1]);
        if prefix <= Width(family) then Some(Range(parts[0], prefix, family)) else None
  }

  /** A number in decimal. */
  function Decimal(n: nat): (t: string)
    ensures t != "" && forall i | 0 <= i < |t| :: Digit(t[i])
  {
    (if n < 10 then "" else Decimal(n / 10)) + [(n % 10 + '0' as int) as char]
  }

  lemma {:induction false} NumberOfDecimal(n: nat)
    ensures Number(Decimal(n)) == n
    ensures n != 0 ==> Decimal(n)[0] != '0'
  {
    var init := if n < 10 then "" else Decimal(n / 10);
    assert Decimal(n)[..|Decimal(n)| - 1] == init;
    if n >= 10 {
      NumberOfDecimal(n / 10);
    }
  }

  lemma {:induction false} DecimalOfNumber(t: string)
    requires t != "" && t[0] != '0' && forall i | 0 <= i < |t| :: Digit(t[i])
    ensures Number(t) > 0 && Decimal(Number(t)) == t
  {
    var init := t[..|t| - 1];
    assert t == init + [t[|t| - 1]];
    if init != "" {
      DecimalOfNumber(init);
    }
  }

  lemma PrefixTextIsDecimal(t: string)
    requires IsPrefixText(t)
    ensures Decimal(Number(t)) == t
  {
    if t == "0" {
      assert Number("0") == Number("0"[..0]) * 10;
    } else {
      DecimalOfNumber(t);
    }
  }

  lemma DecimalIsPrefixText(n: nat)
    requires n < 1000
    ensures IsPrefixText(Decimal(n))
  {
    NumberOfDecimal(n);
    assert n >= 10 ==> |Decimal(n)| == |Decimal(n / 10)| + 1;
    assert n >= 100 ==> |Decimal(n / 10)| == |Decimal(n / 100)| + 1;
    assert n == 0 ==> Decimal(n) == "0";
  }

  /** An entry written as a range: an address alone stands for itself, or the decimal prefix follows a `/`. */
  ghost predicate Writes(net: Grammar, entry: string, r: Range) {
    && IpVersion(net, r.address) == Some(r.family)
    && ((entry == r.address && r.prefix == Width(r.family))
        || (entry == r.address + ("/" + Decimal(r.prefix)) && r.prefix <= Width(r.family)))
  }

  lemma ReadIsWritten(net: Grammar, entry: string, r: Range)
    requires ParseRange(net, entry) == Some(r)
    ensures Writes(net, entry, r)
  {
    var parts := Split(entry, '/');
    SplitJoins(entry, '/');
    if |parts| == 2 {
      PrefixTextIsDecimal(parts[1]);
      assert Join(parts, "/") == parts[0] + ("/" + parts[1]);
    }
  }

  lemma WrittenIsRead(net: Grammar, entry: string, r: Range)
    requires Sensible(net) && Writes(net, entry, r)
    ensures ParseRange(net, entry) == Some(r)
  {
    assert '/' !in r.address;
    if entry == r.address {
      SplitWhole(entry, '/');
    } else {
      DecimalIsPrefixText(r.prefix);
      NumberOfDecimal(r.prefix);
      DigitsHoldNoSlash(Decimal(r.prefix));
      SplitFirst(r.address, '/', Decimal(r.prefix));
      SplitWhole(Decimal(r.prefix), '/');
    }
  }

  lemma DigitsHoldNoSlash(t: string)
    requires forall i | 0 <= i < |t| :: Digit(t[i])
    ensures '/' !in t
  {
  }

  /** An entry is read as a range exactly when it is written as that range: nothing else is read, and nothing in two ways. */
  lemma ReadsExactlyWhatIsWritten(net: Grammar, entry: string, r: Range)
    requires Sensible(net)
    ensures ParseRange(net, entry) == Some(r) <==> Writes(net, entry, r)
  {
    if ParseRange(net, entry) == Some(r) {
      ReadIsWritten(net, entry, r);
    }
    if Writes(net, entry, r) {
      WrittenIsRead(net, entry, r);
    }
  }

  /** An address with a zone is no range, with a prefix or without. */
  lemma ZonesAreNoRange(net: Grammar, entry: string)
    requires '%' in entry
    ensures ParseRange(net, entry) == None
  {
    var parts := Split(entry, '/');
    SplitJoins(entry, '/');
    if |parts| == 2 {
      assert entry == parts[0] + ("/" + parts[1]);
      if IsPrefixText(parts[1]) {
        assert forall i | 0 <= i < |parts[1]| :: Digit(parts[1][i]);
        assert '%' !in parts[1];
        assert '%' in parts[0];
      }
    }
  }

  // ---- what a range holds ----

  function Pow2(n: nat): (p: nat)
    ensures p > 0
  {
    if n == 0 then 1 else 2 * Pow2(n - 1)
  }

  /** A value without its last `n` bits. */
  function Shift(x: nat, n: nat): nat {
    if n == 0 then x else Shift(x / 2, n - 1)
  }

  datatype Address = V4(value: nat) | V6(value: nat)

  predicate IsAddress(a: Address) {
    a.value < Pow2(if a.V4? then 32 else 128)
  }

  /** An IPv4 address in its IPv4-mapped form. */
  function Mapped(v4: nat): nat {
    0xffff * Pow2(32) + v4
  }

  /** A range of a base, with so many leading bits fixed. */
  datatype Block = Block(family: Family, base: nat, prefix: nat)

  predicate IsBlock(b: Block) {
    b.prefix <= Width(b.family) && b.base < Pow2(Width(b.family))
  }

  predicate SameLead(b: Block, value: nat)
    requires b.prefix <= Width(b.family)
  {
    Shift(b.base, Width(b.family) - b.prefix) == Shift(value, Width(b.family) - b.prefix)
  }

  /** An address of the other family is checked in its mapped form, where it has one. */
  predicate Holds(b: Block, a: Address)
    requires b.prefix <= Width(b.family)
  {
    match a
    case V4(value) => SameLead(b, if b.family.IPv4? then value else Mapped(value))
    case V6(value) =>
      if b.family.IPv6? then SameLead(b, value) else Shift(value, 32) == 0xffff && SameLead(b, value % Pow2(32))
  }

  /** The check made of each entry at boot. */
  predicate TrustsAll(b: Block)
    requires b.prefix <= Width(b.family)
  {
    if b.prefix == 0 then true
    else if b.family.IPv4? || b.prefix > 96 then false
    else Holds(b, V6(Mapped(0)))
  }

  ghost predicate HoldsEvery4(b: Block)
    requires b.prefix <= Width(b.family)
  {
    forall a: Address | a.V4? && IsAddress(a) :: Holds(b, a)
  }

  ghost predicate HoldsEvery6(b: Block)
    requires b.prefix <= Width(b.family)
  {
    forall a: Address | a.V6? && IsAddress(a) :: Holds(b, a)
  }

  lemma {:induction false} ShiftAgain(x: nat, m: nat, n: nat)
    ensures Shift(Shift(x, m), n) == Shift(x, m + n)
    decreases m
  {
    if m > 0 {
      ShiftAgain(x / 2, m - 1, n);
    }
  }

  lemma Halves(lead: nat, half: nat, rest: nat)
    ensures (lead * (2 * half) + rest) / 2 == lead * half + rest / 2
  {
    assert lead * (2 * half) == 2 * (lead * half);
  }

  lemma {:induction false} ShiftTakesOff(lead: nat, n: nat, rest: nat)
    requires rest < Pow2(n)
    ensures Shift(lead * Pow2(n) + rest, n) == lead
    decreases n
  {
    if n > 0 {
      Halves(lead, Pow2(n - 1), rest);
      ShiftTakesOff(lead, n - 1, rest / 2);
    }
  }

  lemma {:induction false} Pow2Grows(m: nat, n: nat)
    requires m < n
    ensures 2 * Pow2(m) <= Pow2(n)
    decreases n
  {
    if m < n - 1 {
      Pow2Grows(m, n - 1);
    }
  }

  /** Two values whose bit `n` differs, within a block of a longer lead, are not both held. */
  lemma NotBoth(b: Block, x: nat, lead: nat, n: nat)
    requires b.prefix <= Width(b.family) && Width(b.family) - b.prefix <= n
    requires x == lead * Pow2(n)
    ensures !(SameLead(b, x) && SameLead(b, x + Pow2(n)))
  {
    var host := Width(b.family) - b.prefix;
    ShiftAgain(x, host, n - host);
    ShiftAgain(x + Pow2(n), host, n - host);
    ShiftTakesOff(lead, n, 0);
    assert (lead + 1) * Pow2(n) == lead * Pow2(n) + Pow2(n);
    ShiftTakesOff(lead + 1, n, 0);
  }

  lemma {:induction false} ShiftedOut(x: nat, n: nat)
    requires x < Pow2(n)
    ensures Shift(x, n) == 0
  {
    ShiftTakesOff(0, n, x);
  }

  lemma PrefixZeroHoldsAll(b: Block)
    requires IsBlock(b) && b.prefix == 0
    ensures if b.family.IPv4? then HoldsEvery4(b) else HoldsEvery6(b)
  {
    ShiftedOut(b.base, Width(b.family));
    forall a: Address | IsAddress(a) && (a.V4? <==> b.family.IPv4?) ensures Holds(b, a) {
      ShiftedOut(a.value, Width(b.family));
    }
  }

  lemma FixedBitHoldsNotAll(b: Block)
    requires IsBlock(b) && b.prefix > 0
    ensures !HoldsEvery6(b)
    ensures b.family.IPv4? ==> !HoldsEvery4(b)
  {
    var top := Width(b.family) - 1;
    Pow2Grows(top, top + 1);
    NotBoth(b, 0, 0, top);
    if b.family.IPv4? {
      assert IsAddress(V4(0)) && IsAddress(V4(Pow2(top)));
      ShiftedOut(0, 32);
      assert !Holds(b, V6(0)) && IsAddress(V6(0));
    } else {
      assert IsAddress(V6(0)) && IsAddress(V6(Pow2(top)));
    }
  }

  lemma LongPrefixHoldsNotAll4(b: Block)
    requires IsBlock(b) && b.family.IPv6? && b.prefix > 96
    ensures !HoldsEvery4(b)
  {
    Pow2Grows(31, 32);
    assert Mapped(0) == 0x1fffe * Pow2(31);
    NotBoth(b, Mapped(0), 0x1fffe, 31);
    assert IsAddress(V4(0)) && IsAddress(V4(Pow2(31)));
    assert Mapped(Pow2(31)) == Mapped(0) + Pow2(31);
  }

  /** A lead no longer than the mapped form's own holds every mapped address or none. */
  lemma ShortPrefixHolds4Alike(b: Block, a: Address)
    requires IsBlock(b) && b.family.IPv6? && b.prefix <= 96 && a.V4? && IsAddress(a)
    ensures Holds(b, a) <==> Holds(b, V6(Mapped(0)))
  {
    var host := 128 - b.prefix;
    ShiftTakesOff(0xffff, 32, a.value);
    ShiftTakesOff(0xffff, 32, 0);
    ShiftAgain(Mapped(a.value), 32, host - 32);
    ShiftAgain(Mapped(0), 32, host - 32);
  }

  /** The check names a range exactly when it alone holds every IPv4 address or every IPv6 address. */
  lemma TrustsAllExactly(b: Block)
    requires IsBlock(b)
    ensures TrustsAll(b) <==> HoldsEvery4(b) || HoldsEvery6(b)
  {
    if b.prefix == 0 {
      PrefixZeroHoldsAll(b);
    } else {
      FixedBitHoldsNotAll(b);
      if b.family.IPv6? {
        if b.prefix > 96 {
          LongPrefixHoldsNotAll4(b);
        } else {
          forall a: Address | a.V4? && IsAddress(a) ensures Holds(b, a) <==> Holds(b, V6(Mapped(0))) {
            ShortPrefixHolds4Alike(b, a);
          }
          assert IsAddress(V4(0));
        }
      }
    }
  }

  // ---- the entries ----

  function BlockOf(net: Grammar, r: Range): Block {
    Block(r.family, net.value(r.address), r.prefix)
  }

  /** The entries that each on its own trust a whole family; those it cannot read are not for it to name. */
  function TrustAllEntries(net: Grammar, entries: seq<string>): seq<string> {
    if entries == [] then []
    else
      var range := ParseRange(net, entries[0]);
      (if range.Some? && TrustsAll(BlockOf(net, range.value)) then [entries[0]] else []) + TrustAllEntries(net, entries[1..])
  }

  /** The operator is warned of exactly the entries written as a range that holds a whole family. */
  lemma {:induction false} WarnsOfExactlyThose(net: Grammar, entries: seq<string>, entry: string)
    requires Sensible(net)
    ensures entry in TrustAllEntries(net, entries) <==>
            entry in entries && exists r ::
              Writes(net, entry, r) && (HoldsEvery4(BlockOf(net, r)) || HoldsEvery6(BlockOf(net, r)))
    decreases entries
  {
    if entries != [] {
      WarnsOfExactlyThose(net, entries[1..], entry);
      if entry == entries[0] {
        WarnsOfEntry(net, entry);
      }
    }
  }

  /** They are named in the order they are configured, each as often. */
  lemma {:induction false} WarnsInOrder(net: Grammar, a: seq<string>, b: seq<string>)
    ensures TrustAllEntries(net, a + b) == TrustAllEntries(net, a) + TrustAllEntries(net, b)
    ensures |a| == 1 ==> TrustAllEntries(net, a) == [] || TrustAllEntries(net, a) == a
  {
    if a == [] {
      assert a + b == b;
    } else {
      assert (a + b)[1..] == a[1..] + b;
      WarnsInOrder(net, a[1..], b);
    }
  }

  lemma WarnsOfEntry(net: Grammar, entry: string)
    requires Sensible(net)
    ensures (ParseRange(net, entry).Some? && TrustsAll(BlockOf(net, ParseRange(net, entry).value)))
       <==> exists r :: Writes(net, entry, r) && (HoldsEvery4(BlockOf(net, r)) || HoldsEvery6(BlockOf(net, r)))
  {
    forall r ensures ParseRange(net, entry) == Some(r) <==> Writes(net, entry, r) {
      ReadsExactlyWhatIsWritten(net, entry, r);
    }
    if ParseRange(net, entry).Some? {
      TrustsAllExactly(BlockOf(net, ParseRange(net, entry).value));
    }
  }
}
