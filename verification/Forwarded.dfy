/**
 * The `X-Forwarded-For` chain: the entry each hop appends, and the walk from
 * the right that recovers the browser's address from a chain of trusted hops.
 */
module Forwarded {
  import opened Wrappers
  import opened Text

  /**
   * What the addresses are to this proxy: whether a text is one (with no IPv6
   * zone), and whether the trust list holds it.
   */
  datatype Network = Network(isAddress: string -> bool, trusted: string -> bool)

  /** An address is a text that stands as one member of a list. */
  ghost predicate AddressesAreMembers(net: Network) {
    forall a :: net.isAddress(a) ==> IsMember(a)
  }

  function PeerEntry(peer: Option<string>): string {
    if peer.Some? then peer.value else "unknown"
  }

  /** The header with the peer the hop saw after the entries it arrived with. */
  function AppendForwardedFor(received: Option<string>, peer: Option<string>): string {
    var entries := if received.Some? then received.value else "";
    if Trim(entries, JsSpace) == "" then PeerEntry(peer) else entries + ", " + PeerEntry(peer)
  }

  function Hops(header: Option<string>): seq<string> {
    Members(if header.Some? then header.value else "")
  }

  /** The walk from the right, from an address in hand. */
  function Walk(net: Network, hops: seq<string>, address: string): string {
    if hops == [] || !net.trusted(address) then address
    else
      var hop := hops[|hops| - 1];
      if !net.isAddress(hop) then address else Walk(net, hops[..|hops| - 1], hop)
  }

  /** The browser's address, as far as the trusted chain can tell. */
  function SourceAddress(net: Network, peer: Option<string>, header: Option<string>): Option<string> {
    if peer.None? || !net.trusted(peer.value) then peer else Some(Walk(net, Hops(header), peer.value))
  }

  method RequestSource(net: Network, peer: Option<string>, header: Option<string>) returns (source: Option<string>)
    ensures source == SourceAddress(net, peer, header)
  {
    if peer.None? || !net.trusted(peer.value) {
      return peer;
    }
    var address := peer.value;
    var hops := Hops(header);
    var i := |hops| - 1;
    assert hops[..i + 1] == hops;
    while i >= 0 && net.trusted(address)
      invariant -1 <= i < |hops|
      invariant Walk(net, hops, peer.value) == Walk(net, hops[..i + 1], address)
    {
      var hop := hops[i];
      assert hops[..i + 1][..i] == hops[..i];
      if !net.isAddress(hop) {
        break;
      }
      address := hop;
      i := i - 1;
    }
    return Some(address);
  }

  // ---- what the walk finds ----

  /**
   * The walk stands at a hop, or at the peer, that every hop from there on
   * vouches for, and no further only because there is nothing further, it is
   * not trusted, or the hop before is no address.
   */
  ghost predicate FurthestVouchedFor(net: Network, hops: seq<string>, peer: string, found: string, k: int) {
    && 0 <= k <= |hops|
    && found == At(hops, peer, k)
    && (forall i | k <= i < |hops| :: net.isAddress(hops[i]))
    && (forall i | k < i <= |hops| :: net.trusted(At(hops, peer, i)))
    && (k == 0 || !net.trusted(found) || !net.isAddress(hops[k - 1]))
  }

  /** The hop at a position, the peer being after the last. */
  function At(hops: seq<string>, peer: string, i: int): string
    requires 0 <= i <= |hops|
  {
    if i == |hops| then peer else hops[i]
  }

  lemma {:induction false} WalkFindsTheFurthest(net: Network, hops: seq<string>, peer: string) returns (k: int)
    ensures FurthestVouchedFor(net, hops, peer, Walk(net, hops, peer), k)
  {
    if hops == [] || !net.trusted(peer) || !net.isAddress(hops[|hops| - 1]) {
      return |hops|;
    } else {
      var n := |hops| - 1;
      k := WalkFindsTheFurthest(net, hops[..n], hops[n]);
      forall i | k < i <= |hops| ensures net.trusted(At(hops, peer, i)) {
        assert i <= n ==> At(hops[..n], hops[n], i) == At(hops, peer, i);
      }
      forall i | k <= i < |hops| ensures net.isAddress(hops[i]) {
        assert i < n ==> hops[..n][i] == hops[i];
      }
    }
  }

  /** There is only one such place, so the walk's answer is the whole of the rule. */
  lemma FurthestIsUnique(net: Network, hops: seq<string>, peer: string, a: string, j: int, b: string, k: int)
    requires FurthestVouchedFor(net, hops, peer, a, j) && FurthestVouchedFor(net, hops, peer, b, k)
    ensures a == b && j == k
  {
  }

  /**
   * The address told: none without a peer, the peer when it is not trusted or
   * no hop was named, and else the furthest hop vouched for.
   */
  lemma SourceIsTheFurthest(net: Network, peer: Option<string>, header: Option<string>) returns (k: int)
    ensures peer.None? ==> SourceAddress(net, peer, header) == None
    ensures peer.Some? && (!net.trusted(peer.value) || header.None?) ==> SourceAddress(net, peer, header) == peer
    ensures peer.Some? && net.trusted(peer.value) ==>
              && SourceAddress(net, peer, header).Some?
              && FurthestVouchedFor(net, Hops(header), peer.value, SourceAddress(net, peer, header).value, k)
  {
    k := 0;
    MembersOfSpace("");
    if peer.Some? {
      k := WalkFindsTheFurthest(net, Hops(header), peer.value);
    }
  }

  /** Nothing left of a hop the proxy does not trust, or cannot read, reaches the walk. */
  lemma {:induction false} WalkStops(net: Network, left: seq<string>, right: seq<string>, address: string)
    requires exists i :: 0 <= i < |right| && !(net.isAddress(right[i]) && net.trusted(right[i]))
    ensures Walk(net, left + right, address) == Walk(net, right, address)
    decreases |right|
  {
    var i :| 0 <= i < |right| && !(net.isAddress(right[i]) && net.trusted(right[i]));
    var n := |right| - 1;
    var hop := right[n];
    assert (left + right)[|left + right| - 1] == hop;
    assert (left + right)[..|left + right| - 1] == left + right[..n];
    if net.trusted(address) && net.isAddress(hop) && net.trusted(hop) {
      assert right[..n][i] == right[i];
      WalkStops(net, left, right[..n], hop);
    }
  }

  /** Text a client puts left of such a hop never changes the address told. */
  lemma ForgedEntriesChangeNothing(net: Network, peer: Option<string>, forged: string, rest: string)
    requires exists i :: 0 <= i < |Members(rest)| && !(net.isAddress(Members(rest)[i]) && net.trusted(Members(rest)[i]))
    ensures SourceAddress(net, peer, Some(forged + ([','] + rest))) == SourceAddress(net, peer, Some(rest))
  {
    MembersAppend(forged, rest);
    if peer.Some? {
      WalkStops(net, Members(forged), Members(rest), peer.value);
    }
  }

  // ---- a chain of hops ----

  lemma CommaSpace(a: string, b: string)
    ensures a + ", " + b == a + ([','] + ([' '] + b))
  {
    assert ", " == [','] + [' '];
  }

  /** What an appended entry adds to the list: itself, last. */
  lemma AppendAddsOneHop(received: Option<string>, peer: string)
    requires IsMember(peer)
    ensures Hops(Some(AppendForwardedFor(received, Some(peer)))) == Hops(received) + [peer]
  {
    var entries := if received.Some? then received.value else "";
    MembersOfOne(peer);
    if Trim(entries, JsSpace) == "" {
      MembersOfSpace(entries);
    } else {
      CommaSpace(entries, peer);
      MembersAppend(entries, [' '] + peer);
    }
  }

  /** The header after each of a chain of hops has appended the peer it saw: the first saw the browser. */
  function Chain(sent: Option<string>, peers: seq<string>): Option<string> {
    if peers == [] then sent
    else Some(AppendForwardedFor(Chain(sent, peers[..|peers| - 1]), Some(peers[|peers| - 1])))
  }

  lemma LastHop(before: seq<string>, peers: seq<string>)
    requires peers != []
    ensures before + peers[..|peers| - 1] + [peers[|peers| - 1]] == before + peers
  {
    assert peers == peers[..|peers| - 1] + [peers[|peers| - 1]];
  }

  /** A peer that is gone still leaves the last entry, so no caller's entry is read in its place. */
  lemma UnknownPeerIsStillLast(received: Option<string>)
    ensures Hops(Some(AppendForwardedFor(received, None))) == Hops(received) + ["unknown"]
  {
    AppendAddsOneHop(received, "unknown");
  }

  lemma {:induction false} ChainHops(sent: Option<string>, peers: seq<string>)
    requires forall p | p in peers :: IsMember(p)
    ensures Hops(Chain(sent, peers)) == Hops(sent) + peers
  {
    if peers != [] {
      var n := |peers| - 1;
      ChainHops(sent, peers[..n]);
      AppendAddsOneHop(Chain(sent, peers[..n]), peers[n]);
      LastHop(Hops(sent), peers);
    }
  }

  lemma {:induction false} WalkTheTrusted(net: Network, left: seq<string>, browser: string, hops: seq<string>, address: string)
    requires net.trusted(address) && net.isAddress(browser) && !net.trusted(browser)
    requires forall h | h in hops :: net.isAddress(h) && net.trusted(h)
    ensures Walk(net, left + [browser] + hops, address) == browser
    decreases |hops|
  {
    var all := left + [browser] + hops;
    if hops == [] {
      assert all[..|all| - 1] == left && all[|all| - 1] == browser;
    } else {
      var n := |hops| - 1;
      assert all[..|all| - 1] == left + [browser] + hops[..n] && all[|all| - 1] == hops[n];
      WalkTheTrusted(net, left, browser, hops[..n], hops[n]);
    }
  }

  /**
   * Recovery. Through any number of trusted hops, each appending the peer it
   * saw, and whatever header the browser itself sent, the address told is the
   * browser's: an address, with no zone, that the proxy does not trust. The
   * last hop is seen as the peer, so only those before it need read as
   * addresses.
   */
  lemma ChainRecoversTheBrowser(net: Network, sent: Option<string>, browser: string, hops: seq<string>)
    requires AddressesAreMembers(net)
    requires net.isAddress(browser) && !net.trusted(browser)
    requires forall h | h in hops :: net.trusted(h)
    requires forall i | 0 <= i < |hops| - 1 :: net.isAddress(hops[i])
    ensures var peers := [browser] + hops;
            SourceAddress(net, Some(peers[|peers| - 1]), Chain(sent, peers[..|peers| - 1])) == Some(browser)
  {
    var peers := [browser] + hops;
    var n := |peers| - 1;
    if hops != [] {
      var told := hops[..|hops| - 1];
      assert peers[..n] == [browser] + told;
      forall h | h in told ensures net.isAddress(h) && net.trusted(h) {
        var i :| 0 <= i < |hops| - 1 && told[i] == h;
        assert hops[i] == h;
      }
      ChainOfTheTrusted(net, sent, browser, told, peers[n]);
    }
  }

  lemma ChainOfTheTrusted(net: Network, sent: Option<string>, browser: string, told: seq<string>, peer: string)
    requires AddressesAreMembers(net) && net.isAddress(browser) && !net.trusted(browser) && net.trusted(peer)
    requires forall h | h in told :: net.isAddress(h) && net.trusted(h)
    ensures SourceAddress(net, Some(peer), Chain(sent, [browser] + told)) == Some(browser)
  {
    ChainHops(sent, [browser] + told);
    assert Hops(sent) + ([browser] + told) == Hops(sent) + [browser] + told;
    WalkTheTrusted(net, Hops(sent), browser, told, peer);
  }
}
