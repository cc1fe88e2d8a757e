/**
 Direct peer rules: one accept per (port, source) appended to the input chain, and what the
 textual dedup in front of it deletes.
 */
module Peering {
  import opened Wrappers
  import opened Text
  import opened Cidr
  import opened Nft
  import opened Registry
  import opened Policy
  import opened State
  import opened Listing

  function PeerProto(port: nat): Transport { if port == 8472 then Udp else Tcp }

  /** The address as it goes into the rule; None for the refused texts. */
  function PeerAddr(raw: string): Option<string> {
    var ip := TrimSpace(raw);
    if ParseCidr(ip).Some? then Some(ip)
    else if ParseAddr(ip).None? then None
    else Some(ip + (if Free(ip, ':') then "/32" else "/128"))
  }

  /** The address check and completion agree with the allowlist's own normalisation. */
  lemma PeerAddrIsNormal(raw: string)
    ensures PeerAddr(raw) == if Meaning(raw).Some? then Some(NormalizeCIDR(raw)) else None
  {
    hide ParseAddr;
    var s := TrimSpace(raw);
    NormalForm(raw);
    if !Free(s, '/') {
      SlashIsNoAddress(s);
    }
  }

  /** `grep "dport <port>" | grep -F "saddr <addr>"`: the listed source starts with the address text. */
  predicate Hit(r: Rule, port: nat, addr: string) {
    ForPort(r, port) && r.src.FromText? && addr <= Listed(r.src.text)
  }

  function DeleteHits(rules: Chain, port: nat, addr: string): Chain {
    if rules == [] then []
    else
      var n := |rules| - 1;
      DeleteHits(rules[..n], port, addr) + (if Hit(rules[n], port, addr) then [] else [rules[n]])
  }

  function AddPeer(s: Node, q: Peer): Node {
    s.(input := DeleteHits(s.input, q.port, q.text) + [PeerRule(q)])
  }

  function ExposePeer(s: Node, port: nat, t: Transport, raw: string): Node {
    match PeerAddr(raw)
    case Some(addr) => AddPeer(s, Peer(port, t, addr))
    case None => s
  }

  // ---------- on the list of peers ----------

  /** A later peer rule takes an earlier one away when the port is the same and the listing starts with its text. */
  predicate Displaces(newer: Peer, prior: Peer) { newer.port == prior.port && newer.text <= Listed(prior.text) }

  function Displace(peers: seq<Peer>, newer: Peer): seq<Peer> {
    if peers == [] then []
    else
      var n := |peers| - 1;
      Displace(peers[..n], newer) + (if Displaces(newer, peers[n]) then [] else [peers[n]])
  }

  lemma {:induction false} DisplaceMembers(peers: seq<Peer>, newer: Peer)
    ensures forall q :: q in Displace(peers, newer) <==> q in peers && !Displaces(newer, q)
  {
    hide Displaces;
    if peers != [] {
      DisplaceMembers(peers[..|peers| - 1], newer);
    }
  }

  lemma DeleteStep(rules: Chain, x: Rule, port: nat, addr: string)
    ensures DeleteHits(rules + [x], port, addr) ==
            if Hit(x, port, addr) then DeleteHits(rules, port, addr) else DeleteHits(rules, port, addr) + [x]
  {
    assert (rules + [x])[..|rules|] == rules;
  }

  lemma {:induction false} DeleteNothing(rules: Chain, port: nat, addr: string)
    requires forall r :: r in rules ==> !Hit(r, port, addr)
    ensures DeleteHits(rules, port, addr) == rules
  {
    hide Hit;
    if rules != [] {
      var n := |rules| - 1;
      assert rules == rules[..n] + [rules[n]] && rules[n] in rules;
      DeleteNothing(rules[..n], port, addr);
    }
  }

  lemma {:induction false} DeleteKeeps(rules: Chain, port: nat, addr: string)
    ensures forall r :: r in DeleteHits(rules, port, addr) <==> r in rules && !Hit(r, port, addr)
  {
    hide Hit;
    if rules != [] {
      DeleteKeeps(rules[..|rules| - 1], port, addr);
    }
  }

  lemma RenderedHasNoPeer(cfg: Config, port: nat, addr: string)
    ensures forall r :: r in RenderInput(cfg) ==> !(r.dport.Some? && r.src.FromText?) && !Hit(r, port, addr)
  {
    hide Listed;
  }

  lemma PeerRulesStep(peers: seq<Peer>, q: Peer)
    ensures PeerRules(peers + [q]) == PeerRules(peers) + [PeerRule(q)]
  {
    assert (peers + [q])[..|peers|] == peers;
  }

  lemma HitIsDisplaced(newer: Peer, prior: Peer)
    ensures Hit(PeerRule(prior), newer.port, newer.text) <==> Displaces(newer, prior)
  {
    assert [prior.port] == [newer.port] <==> prior.port == newer.port by {
      if [prior.port] == [newer.port] { assert [prior.port][0] == [newer.port][0]; }
    }
  }

  lemma DisplaceStep(peers: seq<Peer>, q: Peer, newer: Peer)
    ensures Displace(peers + [q], newer) ==
            if Displaces(newer, q) then Displace(peers, newer) else Displace(peers, newer) + [q]
  {
    hide Displaces;
    assert (peers + [q])[..|peers|] == peers;
  }

  lemma DeleteBehindStep(head: Chain, peers: seq<Peer>, q: Peer, newer: Peer)
    requires DeleteHits(head + PeerRules(peers), newer.port, newer.text) == head + PeerRules(Displace(peers, newer))
    ensures DeleteHits(head + PeerRules(peers + [q]), newer.port, newer.text) ==
            head + PeerRules(Displace(peers + [q], newer))
  {
    hide Hit, Displaces, DeleteHits, PeerRules, PeerRule, Displace;
    HitIsDisplaced(newer, q);
    DisplaceStep(peers, q, newer);
    PeerRulesStep(peers, q);
    DeleteStep(head + PeerRules(peers), PeerRule(q), newer.port, newer.text);
    assert head + (PeerRules(peers) + [PeerRule(q)]) == head + PeerRules(peers) + [PeerRule(q)];
    var kept := Displace(peers, newer);
    PeerRulesStep(kept, q);
    assert head + (PeerRules(kept) + [PeerRule(q)]) == head + PeerRules(kept) + [PeerRule(q)];
  }

  /** Behind rules it never hits, the deletion acts on the peers as `Displace`. */
  lemma {:induction false} DeleteBehind(head: Chain, peers: seq<Peer>, newer: Peer)
    requires forall r :: r in head ==> !Hit(r, newer.port, newer.text)
    ensures DeleteHits(head + PeerRules(peers), newer.port, newer.text) == head + PeerRules(Displace(peers, newer))
  {
    hide Hit, Displaces, DeleteHits;
    if peers == [] {
      DeleteNothing(head, newer.port, newer.text);
      assert head + [] == head;
    } else {
      var n := |peers| - 1;
      assert peers == peers[..n] + [peers[n]];
      DeleteBehind(head, peers[..n], newer);
      DeleteBehindStep(head, peers[..n], peers[n], newer);
    }
  }

  /** The rendered chain after one more peer. */
  lemma PeerOnRendered(s: Node, cfg: Config, peers: seq<Peer>, q: Peer)
    requires s.input == RenderInput(cfg) + PeerRules(peers)
    ensures AddPeer(s, q).input == RenderInput(cfg) + PeerRules(Displace(peers, q) + [q])
  {
    hide RenderInput, DeleteHits, Displace;
    RenderedHasNoPeer(cfg, q.port, q.text);
    DeleteBehind(RenderInput(cfg), peers, q);
    PeerRulesStep(Displace(peers, q), q);
  }

  /**
   Replacing is per port and listed source only: where a peer's call finds its own rule again, so does the call for the
   same peer on the other protocol, and the first rule is lost.
   */
  lemma OtherProtocolDisplaces(peers: seq<Peer>, prior: Peer, t: Transport)
    requires prior in peers && t != prior.transport
    ensures prior !in Displace(peers, prior.(transport := t)) + [prior.(transport := t)]
            <==> prior.text <= Listed(prior.text)
  {
    hide Listed;
    DisplaceMembers(peers, prior.(transport := t));
  }

  /** An IPv4 peer's call finds its own rule again if and only if it names a network, not a host, without host bits. */
  lemma ReplacesItself(q: Peer, bits: nat, len: nat)
    requires bits < 0x1_0000_0000 && len <= 32 && q.text == Print4(bits, Some(len))
    ensures Displaces(q, q) <==> len < 32 && bits % Pow2(32 - len) == 0
  {
    hide Listed, Print4, Pow2;
    OwnListing(bits, len);
  }

  ghost predicate PeerText(text: string) { Word(text) && Meaning(text).Some? }

  /** A host's call removes nothing at all, not even its own earlier rule: every repetition adds one more. */
  lemma {:induction false} HostPeersAccumulate(peers: seq<Peer>, newer: Peer)
    requires HostText(newer.text) && forall q :: q in peers ==> PeerText(q.text)
    ensures Displace(peers, newer) == peers
  {
    hide Listed, HostText, PeerText;
    if peers != [] {
      var n := |peers| - 1;
      assert peers == peers[..n] + [peers[n]] && peers[n] in peers;
      HostPeersAccumulate(peers[..n], newer);
      HostDisplacesNone(newer, peers[n]);
    }
  }

  lemma HostDisplacesNone(newer: Peer, prior: Peer)
    requires HostText(newer.text) && PeerText(prior.text)
    ensures !Displaces(newer, prior)
  {
    hide HostText, Meaning;
    HostIsNeverListed(newer.text, prior.text);
  }

  /** A call with a bare address, the fleet's own way, is a host's. */
  lemma BareAddressIsHost(raw: string)
    requires Meaning(raw).Some? && Free(TrimSpace(raw), '/')
    ensures PeerAddr(raw).Some? && HostText(PeerAddr(raw).value)
  {
    hide Meaning, NormalizeCIDR;
    PeerAddrIsNormal(raw);
    NormalizedText(raw);
    NormalizeMeaning(raw);
    BareIsWhole(raw);
  }

  lemma BareIsWhole(raw: string)
    requires Meaning(raw).Some? && Free(TrimSpace(raw), '/')
    ensures Meaning(raw).value.len == Width(Meaning(raw).value.v6)
  {
    hide ParseAddr;
  }
}
