/**
 The allowlist configuration, the chains GenerateAllowlistConfig renders for it, and the
 policy those chains implement, stated without mentioning rules or their order.
 */
module Policy {
  import opened Wrappers
  import opened Text
  import opened Cidr
  import opened Nft
  import opened Registry

  datatype Profile = NormalProfile | StrictProfile

  datatype Config = Config(profile: Profile, sshPorts: seq<int>, admin4: seq<string>, admin6: seq<string>,
    openWeb: bool)

  // ---------- normalizePorts ----------

  predicate PortNumber(p: int) { 0 < p <= 65535 }

  /** First occurrences of the numbers that are ports. */
  function Distinct(ports: seq<int>): seq<int> {
    if ports == [] then []
    else
      var n := |ports| - 1;
      var d := Distinct(ports[..n]);
      if PortNumber(ports[n]) && ports[n] !in d then d + [ports[n]] else d
  }

  function Insert(sorted: seq<int>, p: int): seq<int> {
    if sorted == [] then [p]
    else
      var n := |sorted| - 1;
      if sorted[n] <= p then sorted + [p] else Insert(sorted[..n], p) + [sorted[n]]
  }

  /** sort.Ints. */
  function SortInts(s: seq<int>): seq<int> {
    if s == [] then [] else Insert(SortInts(s[..|s| - 1]), s[|s| - 1])
  }

  function NormalPorts(ports: seq<int>): seq<int> { SortInts(Distinct(ports)) }

  method NormalizePorts(ports: seq<int>) returns (out: seq<int>)
    ensures out == NormalPorts(ports)
  {
    var seen: set<int> := {};
    out := [];
    var i := 0;
    while i < |ports|
      invariant 0 <= i <= |ports|
      invariant out == Distinct(ports[..i])
      invariant forall p :: p in seen <==> p in out
    {
      assert ports[..i + 1][..i] == ports[..i];
      var p := ports[i];
      if PortNumber(p) && p !in seen {
        seen := seen + {p};
        out := out + [p];
      }
      i := i + 1;
    }
    assert ports[..i] == ports;
    out := SortInts(out);
  }

  ghost predicate Ascending(s: seq<int>) {
    forall i, j :: 0 <= i < j < |s| ==> s[i] < s[j]
  }

  lemma {:induction false} DistinctMembers(ports: seq<int>)
    ensures forall p :: p in Distinct(ports) <==> p in ports && PortNumber(p)
    ensures forall i, j :: 0 <= i < j < |Distinct(ports)| ==> Distinct(ports)[i] != Distinct(ports)[j]
  {
    if ports != [] {
      DistinctMembers(ports[..|ports| - 1]);
    }
  }

  lemma {:induction false} InsertAscends(s: seq<int>, p: int)
    requires Ascending(s) && p !in s
    ensures Ascending(Insert(s, p))
    ensures forall q :: q in Insert(s, p) <==> q in s || q == p
  {
    if s != [] {
      var n := |s| - 1;
      if s[n] > p {
        var x := Insert(s[..n], p);
        assert s == s[..n] + [s[n]];
        InsertAscends(s[..n], p);
        forall i | 0 <= i < |x| ensures x[i] < s[n] {
          assert x[i] in x;
        }
      } else {
        assert forall i :: 0 <= i < n ==> s[i] < s[n];
      }
    }
  }

  lemma {:induction false} SortAscends(s: seq<int>)
    requires forall i, j :: 0 <= i < j < |s| ==> s[i] != s[j]
    ensures Ascending(SortInts(s))
    ensures forall q :: q in SortInts(s) <==> q in s
  {
    if s != [] {
      var n := |s| - 1;
      SortAscends(s[..n]);
      InsertAscends(SortInts(s[..n]), s[n]);
      assert s == s[..n] + [s[n]];
    }
  }

  /** The normalised list is strictly ascending and holds exactly the port numbers of the input. */
  lemma NormalPortsMeaning(ports: seq<int>)
    ensures Ascending(NormalPorts(ports))
    ensures forall p :: p in NormalPorts(ports) <==> p in ports && 1 <= p <= 65535
  {
    DistinctMembers(ports);
    SortAscends(Distinct(ports));
  }

  /** Strictly ascending lists with the same members are equal, so the order of the input does not matter. */
  lemma {:induction false} AscendingUnique(a: seq<int>, b: seq<int>)
    requires Ascending(a) && Ascending(b)
    requires forall p :: p in a <==> p in b
    ensures a == b
  {
    assert b == [] || b[0] in b;
    if a != [] {
      assert a[0] in a;
      assert a[0] in b;
      assert b[0] in b;
      assert a[0] == b[0];
      forall p | p in a[1..] ensures p in b[1..] { assert p in b && p != a[0]; }
      forall p | p in b[1..] ensures p in a[1..] { assert p in a && p != b[0]; }
      AscendingUnique(a[1..], b[1..]);
    }
  }

  // ---------- GenerateAllowlistConfig ----------

  function Plain(guard: Guard, action: Action): Rule { Rule(guard, None, Anyone, action) }

  function FromSet(name: SetName): Rule { Rule(Any, None, InSet(name), Accept) }

  function FromNet(text: string): Rule { Rule(Any, None, FromText(text), Accept) }

  function OpenTcp(ports: seq<int>): Rule { Rule(Any, Some(Ports(Tcp, ports)), Anyone, Accept) }

  /** The ports the SSH rule opens: the valid ones, or 22 when there is none. */
  function SshList(cfg: Config): seq<int> {
    if NormalPorts(cfg.sshPorts) == [] then [22] else NormalPorts(cfg.sshPorts)
  }

  function WebRules(cfg: Config): Chain { if cfg.openWeb then [OpenTcp([80, 443])] else [] }

  function SshRules(cfg: Config): Chain { if cfg.profile.NormalProfile? then [OpenTcp(SshList(cfg))] else [] }

  const INPUT_HEAD: Chain := [Plain(FromLoopback, Accept), Plain(Established, Accept)]
  const JUMP: Chain := [Plain(Any, JumpExposed)]
  const ICMP_RULES: Chain := [Plain(Icmp, Accept), Plain(Icmp6, Accept)]
  const SET_RULES: Chain := [FromSet(Admin4), FromSet(Admin6), FromSet(Allow4), FromSet(Allow6)]
  const LOG_RULES: Chain := [Plain(Any, LogOnly)]
  const LAN_RULES: Chain := [FromNet("10.0.0.0/8"), FromNet("172.16.0.0/12"), FromNet("192.168.0.0/16")]

  function RenderInput(cfg: Config): Chain {
    INPUT_HEAD + JUMP + (ICMP_RULES + WebRules(cfg) + SshRules(cfg) + SET_RULES + LOG_RULES)
  }

  function RenderForward(cfg: Config): Chain {
    [Plain(Established, Accept)] + JUMP + (WebRules(cfg) + LAN_RULES + SET_RULES)
  }

  /** Rules ExposePeerPortDirect appends behind the rendered input chain. */
  datatype Peer = Peer(port: nat, transport: Transport, text: string)

  function PeerRule(q: Peer): Rule { PortRule(q.port, q.transport, FromText(q.text), Accept) }

  function PeerRules(peers: seq<Peer>): Chain {
    if peers == [] then [] else PeerRules(peers[..|peers| - 1]) + [PeerRule(peers[|peers| - 1])]
  }

  /** The base ruleset's forward chain: its accepting policy, as the last rule it amounts to. */
  const BASE_FORWARD: Chain := [Plain(Any, Accept)]

  // ---------- the declarative policy ----------

  /** What one registered exposure says about a packet. */
  ghost function EntrySays(e: Entry, sets: Sets, p: Packet): Verdict {
    if p.proto != L4(e.transport) || p.dport != e.port then NoMatch
    else match e.scope
      case ScopeAdmin =>
        if SetHolds(sets, Admin4, p.src) || SetHolds(sets, Admin6, p.src) then Accepted else Dropped
      case ScopeGlobal => Accepted
      case ScopeTraefik => NoMatch
      case ScopeIps =>
        if exists ip :: ip in e.ips && Denotes(ip, p.src) then Accepted else Dropped
  }

  /** The last exposure registered for the packet's port decides. */
  ghost function ExposedSays(es: seq<Entry>, sets: Sets, p: Packet): Verdict {
    match LastFor(es, p.dport) case Some(e) => EntrySays(e, sets, p) case None => NoMatch
  }

  ghost predicate Web(cfg: Config, p: Packet) {
    cfg.openWeb && p.proto == L4(Tcp) && (p.dport == 80 || p.dport == 443)
  }

  ghost predicate SshPort(cfg: Config, port: nat) {
    if exists q :: q in cfg.sshPorts && PortNumber(q) then port in cfg.sshPorts && PortNumber(port) else port == 22
  }

  ghost predicate Ssh(cfg: Config, p: Packet) {
    cfg.profile.NormalProfile? && p.proto == L4(Tcp) && SshPort(cfg, p.dport)
  }

  ghost predicate IcmpPacket(p: Packet) {
    if p.src.v6 then p.proto == IcmpV6 else p.proto == IcmpV4
  }

  ghost predicate InAnySet(sets: Sets, p: Packet) {
    exists name :: SetHolds(sets, name, p.src)
  }

  ghost predicate PeerAllowed(peers: seq<Peer>, p: Packet) {
    exists q :: q in peers && p.proto == L4(q.transport) && p.dport == q.port && Denotes(q.text, p.src)
  }

  ghost predicate Lan(p: Packet) {
    Denotes("10.0.0.0/8", p.src) || Denotes("172.16.0.0/12", p.src) || Denotes("192.168.0.0/16", p.src)
  }

  ghost predicate InputAllows(cfg: Config, peers: seq<Peer>, exposed: Verdict, sets: Sets, p: Packet) {
    || p.lo
    || p.established
    || exposed.Accepted?
    || (exposed.NoMatch? && (IcmpPacket(p) || Web(cfg, p) || Ssh(cfg, p) || InAnySet(sets, p) || PeerAllowed(peers, p)))
  }

  ghost predicate ForwardAllows(cfg: Config, exposed: Verdict, sets: Sets, p: Packet) {
    || p.established
    || exposed.Accepted?
    || (exposed.NoMatch? && (Web(cfg, p) || Lan(p) || InAnySet(sets, p)))
  }

  // ---------- chains of accepts ----------

  ghost predicate NoVerdictButAccept(rules: Chain) {
    forall r :: r in rules ==> r.action == Accept || r.action == LogOnly
  }

  ghost predicate SomeAccept(rules: Chain, sets: Sets, p: Packet) {
    exists r :: r in rules && r.action == Accept && Matches(r, sets, p)
  }

  lemma SomeAcceptCons(r: Rule, rules: Chain, sets: Sets, p: Packet)
    ensures SomeAccept([r] + rules, sets, p)
            <==> (r.action == Accept && Matches(r, sets, p)) || SomeAccept(rules, sets, p)
  {
    assert r in [r] + rules;
    assert forall x :: x in rules ==> x in [r] + rules;
  }

  lemma SomeAcceptConcat(a: Chain, b: Chain, sets: Sets, p: Packet)
    ensures SomeAccept(a + b, sets, p) <==> SomeAccept(a, sets, p) || SomeAccept(b, sets, p)
  {
    hide Matches;
    assert forall x :: x in a || x in b <==> x in a + b;
  }

  lemma {:induction false} AcceptsOnly(rules: Chain, callee: Chain, sets: Sets, p: Packet)
    requires NoVerdictButAccept(rules)
    ensures Run(rules, callee, sets, p) == if SomeAccept(rules, sets, p) then Accepted else NoMatch
  {
    hide Matches;
    if rules != [] {
      assert rules == [rules[0]] + rules[1..] && rules[0] in rules;
      SomeAcceptCons(rules[0], rules[1..], sets, p);
      AcceptsOnly(rules[1..], callee, sets, p);
    }
  }

  lemma SingleAccept(r: Rule, sets: Sets, p: Packet)
    requires r.action == Accept
    ensures SomeAccept([r], sets, p) <==> Matches(r, sets, p)
  {
    SomeAcceptCons(r, [], sets, p);
    assert [r] + [] == [r];
  }

  /** A chain that accepts, jumps, and accepts again. */
  lemma HeadJumpTail(head: Chain, tail: Chain, callee: Chain, sets: Sets, p: Packet)
    requires NoVerdictButAccept(head) && NoVerdictButAccept(tail)
    ensures var inner := Run(callee, [], sets, p);
            LetsIn(head + JUMP + tail, callee, sets, p) <==>
            SomeAccept(head, sets, p) || inner.Accepted? || (inner.NoMatch? && SomeAccept(tail, sets, p))
  {
    RunConcat(head + JUMP, tail, callee, sets, p);
    RunConcat(head, JUMP, callee, sets, p);
    AcceptsOnly(head, callee, sets, p);
    AcceptsOnly(tail, callee, sets, p);
    assert JUMP[1..] == [];
    assert Matches(JUMP[0], sets, p);
  }

  // ---------- what each group of rules accepts ----------

  lemma HeadMeaning(sets: Sets, p: Packet)
    ensures NoVerdictButAccept(INPUT_HEAD)
    ensures SomeAccept(INPUT_HEAD, sets, p) <==> p.lo || p.established
  {
    SingleAccept(Plain(FromLoopback, Accept), sets, p);
    SingleAccept(Plain(Established, Accept), sets, p);
    SomeAcceptConcat([Plain(FromLoopback, Accept)], [Plain(Established, Accept)], sets, p);
    assert INPUT_HEAD == [Plain(FromLoopback, Accept)] + [Plain(Established, Accept)];
  }

  lemma IcmpMeaning(sets: Sets, p: Packet)
    ensures SomeAccept(ICMP_RULES, sets, p) <==> IcmpPacket(p)
  {
    SingleAccept(Plain(Icmp, Accept), sets, p);
    SingleAccept(Plain(Icmp6, Accept), sets, p);
    SomeAcceptConcat([Plain(Icmp, Accept)], [Plain(Icmp6, Accept)], sets, p);
    assert ICMP_RULES == [Plain(Icmp, Accept)] + [Plain(Icmp6, Accept)];
  }

  lemma OpenTcpMatches(ports: seq<int>, sets: Sets, p: Packet)
    ensures Matches(OpenTcp(ports), sets, p) <==> p.proto == L4(Tcp) && p.dport in ports
  {
  }

  lemma WebMeaning(cfg: Config, sets: Sets, p: Packet)
    ensures SomeAccept(WebRules(cfg), sets, p) <==> Web(cfg, p)
  {
    if cfg.openWeb {
      SingleAccept(OpenTcp([80, 443]), sets, p);
      OpenTcpMatches([80, 443], sets, p);
    }
  }

  lemma SshListMeaning(cfg: Config, port: nat)
    ensures port in SshList(cfg) <==> SshPort(cfg, port)
  {
    NormalPortsMeaning(cfg.sshPorts);
    var list := NormalPorts(cfg.sshPorts);
    if list != [] {
      assert list[0] in list;
    }
    assert forall q :: q in cfg.sshPorts && PortNumber(q) ==> q in list;
  }

  lemma SshMeaning(cfg: Config, sets: Sets, p: Packet)
    ensures SomeAccept(SshRules(cfg), sets, p) <==> Ssh(cfg, p)
  {
    if cfg.profile.NormalProfile? {
      SingleAccept(OpenTcp(SshList(cfg)), sets, p);
      OpenTcpMatches(SshList(cfg), sets, p);
      SshListMeaning(cfg, p.dport);
    }
  }

  lemma FromSetMatches(name: SetName, sets: Sets, p: Packet)
    ensures SomeAccept([FromSet(name)], sets, p) <==> SetHolds(sets, name, p.src)
  {
    SingleAccept(FromSet(name), sets, p);
  }

  lemma FourSets(sets: Sets, p: Packet)
    ensures InAnySet(sets, p) <==>
            SetHolds(sets, Admin4, p.src) || SetHolds(sets, Admin6, p.src) || SetHolds(sets, Allow4, p.src)
              || SetHolds(sets, Allow6, p.src)
  {
    hide SetHolds;
    forall name | SetHolds(sets, name, p.src)
      ensures SetHolds(sets, Admin4, p.src) || SetHolds(sets, Admin6, p.src) || SetHolds(sets, Allow4, p.src)
              || SetHolds(sets, Allow6, p.src)
    {
      match name {
        case Allow4 =>
        case Allow6 =>
        case Admin4 =>
        case Admin6 =>
      }
    }
  }

  lemma SetsMeaning(sets: Sets, p: Packet)
    ensures SomeAccept(SET_RULES, sets, p) <==> InAnySet(sets, p)
  {
    hide SetHolds, Matches, SomeAccept;
    FromSetMatches(Admin4, sets, p);
    FromSetMatches(Admin6, sets, p);
    FromSetMatches(Allow4, sets, p);
    FromSetMatches(Allow6, sets, p);
    var a: Chain, b: Chain := [FromSet(Admin4)], [FromSet(Admin6)];
    var c: Chain, d: Chain := [FromSet(Allow4)], [FromSet(Allow6)];
    SomeAcceptConcat(a, b, sets, p);
    SomeAcceptConcat(a + b, c, sets, p);
    SomeAcceptConcat(a + b + c, d, sets, p);
    assert SET_RULES == a + b + c + d;
    FourSets(sets, p);
  }

  lemma LanMeaning(sets: Sets, p: Packet)
    ensures SomeAccept(LAN_RULES, sets, p) <==> Lan(p)
  {
    hide Denotes, SomeAccept;
    var a, b, c := FromNet("10.0.0.0/8"), FromNet("172.16.0.0/12"), FromNet("192.168.0.0/16");
    SingleAccept(a, sets, p);
    SingleAccept(b, sets, p);
    SingleAccept(c, sets, p);
    SomeAcceptConcat([a], [b], sets, p);
    SomeAcceptConcat([a] + [b], [c], sets, p);
    assert LAN_RULES == [a] + [b] + [c];
  }

  lemma {:induction false} PeersMeaning(peers: seq<Peer>, sets: Sets, p: Packet)
    ensures NoVerdictButAccept(PeerRules(peers))
    ensures SomeAccept(PeerRules(peers), sets, p) <==> PeerAllowed(peers, p)
  {
    hide Denotes, SomeAccept;
    if peers == [] {
      assert !SomeAccept([], sets, p) by { NothingAccepts(sets, p); }
    } else {
      var init, q := peers[..|peers| - 1], peers[|peers| - 1];
      assert peers == init + [q];
      PeersMeaning(init, sets, p);
      SomeAcceptConcat(PeerRules(init), [PeerRule(q)], sets, p);
      SingleAccept(PeerRule(q), sets, p);
    }
  }

  lemma NothingAccepts(sets: Sets, p: Packet)
    ensures !SomeAccept([], sets, p)
  {
  }

  function InputTail(cfg: Config): Chain {
    ICMP_RULES + WebRules(cfg) + SshRules(cfg) + SET_RULES + LOG_RULES
  }

  lemma InputTailMeaning(cfg: Config, peers: seq<Peer>, sets: Sets, p: Packet)
    ensures NoVerdictButAccept(InputTail(cfg) + PeerRules(peers))
    ensures SomeAccept(InputTail(cfg) + PeerRules(peers), sets, p) <==>
            IcmpPacket(p) || Web(cfg, p) || Ssh(cfg, p) || InAnySet(sets, p) || PeerAllowed(peers, p)
  {
    hide Matches, SomeAccept;
    IcmpMeaning(sets, p);
    WebMeaning(cfg, sets, p);
    SshMeaning(cfg, sets, p);
    SetsMeaning(sets, p);
    LogMeaning(sets, p);
    PeersMeaning(peers, sets, p);
    SomeAcceptConcat(ICMP_RULES, WebRules(cfg), sets, p);
    SomeAcceptConcat(ICMP_RULES + WebRules(cfg), SshRules(cfg), sets, p);
    SomeAcceptConcat(ICMP_RULES + WebRules(cfg) + SshRules(cfg), SET_RULES, sets, p);
    SomeAcceptConcat(ICMP_RULES + WebRules(cfg) + SshRules(cfg) + SET_RULES, LOG_RULES, sets, p);
    SomeAcceptConcat(InputTail(cfg), PeerRules(peers), sets, p);
  }

  lemma LogMeaning(sets: Sets, p: Packet)
    ensures !SomeAccept(LOG_RULES, sets, p)
  {
  }

  lemma ForwardTailMeaning(cfg: Config, sets: Sets, p: Packet)
    ensures NoVerdictButAccept(WebRules(cfg) + LAN_RULES + SET_RULES)
    ensures SomeAccept(WebRules(cfg) + LAN_RULES + SET_RULES, sets, p) <==> Web(cfg, p) || Lan(p) || InAnySet(sets, p)
  {
    hide Matches, SomeAccept;
    WebMeaning(cfg, sets, p);
    LanMeaning(sets, p);
    SetsMeaning(sets, p);
    SomeAcceptConcat(WebRules(cfg), LAN_RULES, sets, p);
    SomeAcceptConcat(WebRules(cfg) + LAN_RULES, SET_RULES, sets, p);
  }

  /** The rendered input chain, with peers behind it, implements the declarative policy over any `exposed` chain. */
  lemma InputImplementsPolicy(cfg: Config, peers: seq<Peer>, exposed: Chain, sets: Sets, p: Packet)
    ensures LetsIn(RenderInput(cfg) + PeerRules(peers), exposed, sets, p) <==>
            InputAllows(cfg, peers, Run(exposed, [], sets, p), sets, p)
  {
    hide Matches, SomeAccept, Run;
    var tail := InputTail(cfg) + PeerRules(peers);
    HeadMeaning(sets, p);
    InputTailMeaning(cfg, peers, sets, p);
    HeadJumpTail(INPUT_HEAD, tail, exposed, sets, p);
    assert RenderInput(cfg) + PeerRules(peers) == INPUT_HEAD + JUMP + tail;
  }

  lemma ForwardImplementsPolicy(cfg: Config, exposed: Chain, sets: Sets, p: Packet)
    ensures LetsIn(RenderForward(cfg), exposed, sets, p) <==> ForwardAllows(cfg, Run(exposed, [], sets, p), sets, p)
  {
    hide Matches, Run;
    ForwardTailMeaning(cfg, sets, p);
    SingleAccept(Plain(Established, Accept), sets, p);
    assert Matches(Plain(Established, Accept), sets, p) <==> p.established by { EstablishedMatches(sets, p); }
    HeadJumpTail([Plain(Established, Accept)], WebRules(cfg) + LAN_RULES + SET_RULES, exposed, sets, p);
  }

  lemma EstablishedMatches(sets: Sets, p: Packet)
    ensures Matches(Plain(Established, Accept), sets, p) <==> p.established
  {
  }

  // ---------- the exposed chain ----------

  lemma PortRuleMatches(port: nat, t: Transport, src: Source, action: Action, sets: Sets, p: Packet)
    ensures Matches(PortRule(port, t, src, action), sets, p)
            <==> p.proto == L4(t) && p.dport == port && SourceHolds(src, sets, p)
  {
  }

  lemma {:induction false} AcceptEachRuns(port: nat, t: Transport, ips: seq<string>, sets: Sets, p: Packet)
    ensures Run(AcceptEach(port, t, ips), [], sets, p) ==
            if p.proto == L4(t) && p.dport == port && exists ip :: ip in ips && Denotes(ip, p.src)
              then Accepted else NoMatch
  {
    hide Denotes, Matches;
    if ips != [] {
      var init, ip := ips[..|ips| - 1], ips[|ips| - 1];
      var r := PortRule(port, t, FromText(ip), Accept);
      assert ips == init + [ip];
      AcceptEachRuns(port, t, init, sets, p);
      RunConcat(AcceptEach(port, t, init), [r], [], sets, p);
      PortRuleMatches(port, t, FromText(ip), Accept, sets, p);
      assert [r][1..] == [];
    }
  }

  lemma OneRule(r: Rule, sets: Sets, p: Packet)
    requires r.action == Accept || r.action == Drop
    ensures Run([r], [], sets, p) ==
            if !Matches(r, sets, p) then NoMatch else if r.action == Accept then Accepted else Dropped
  {
    assert [r][1..] == [];
  }

  /** The rules compiled for a scope say what the exposure says. */
  lemma BlockImplementsEntry(e: Entry, sets: Sets, p: Packet)
    ensures Run(BlockOf(e), [], sets, p) == EntrySays(e, sets, p)
  {
    hide Denotes, Matches, SetHolds, Run;
    var drop := PortRule(e.port, e.transport, Anyone, Drop);
    OneRule(drop, sets, p);
    PortRuleMatches(e.port, e.transport, Anyone, Drop, sets, p);
    match e.scope {
      case ScopeAdmin =>
        var a, b := PortRule(e.port, e.transport, InSet(Admin4), Accept),
          PortRule(e.port, e.transport, InSet(Admin6), Accept);
        OneRule(a, sets, p);
        OneRule(b, sets, p);
        PortRuleMatches(e.port, e.transport, InSet(Admin4), Accept, sets, p);
        PortRuleMatches(e.port, e.transport, InSet(Admin6), Accept, sets, p);
        RunConcat([a], [b], [], sets, p);
        RunConcat([a] + [b], [drop], [], sets, p);
        assert BlockOf(e) == [a] + [b] + [drop];
      case ScopeGlobal =>
        OneRule(PortRule(e.port, e.transport, Anyone, Accept), sets, p);
        PortRuleMatches(e.port, e.transport, Anyone, Accept, sets, p);
      case ScopeTraefik =>
        assert BlockOf(e) == [];
        EmptyRuns(sets, p);
      case ScopeIps =>
        AcceptEachRuns(e.port, e.transport, e.ips, sets, p);
        RunConcat(AcceptEach(e.port, e.transport, e.ips), [drop], [], sets, p);
    }
  }

  lemma EmptyRuns(sets: Sets, p: Packet)
    ensures Run([], [], sets, p) == NoMatch
  {
  }

  ghost predicate Copies(rules: Chain, block: Chain) {
    exists k: nat :: k > 0 && rules == Repeat(block, k)
  }

  /** Per port, the live chain holds the block of the last registered exposure, once or several times. */
  ghost predicate Agrees(exposed: Chain, es: seq<Entry>) {
    PerPort(exposed) && forall q: nat :: Copies(PortRules(exposed, q), Wanted(es, q))
  }

  /** Copies of a port's block say about its packets what the port's last entry says. */
  lemma CopiesSay(rules: Chain, es: seq<Entry>, sets: Sets, p: Packet)
    requires Copies(rules, Wanted(es, p.dport))
    ensures Run(rules, [], sets, p) == ExposedSays(es, sets, p)
  {
    hide Run, PortRules, BlockOf, EntrySays, LastFor;
    var k: nat :| k > 0 && rules == Repeat(Wanted(es, p.dport), k);
    RepeatRuns(Wanted(es, p.dport), k, sets, p);
    match LastFor(es, p.dport) {
      case Some(e) => BlockImplementsEntry(e, sets, p);
      case None => EmptyRuns(sets, p);
    }
  }

  lemma AgreeingChainImplements(exposed: Chain, es: seq<Entry>, sets: Sets, p: Packet)
    requires Agrees(exposed, es)
    ensures Run(exposed, [], sets, p) == ExposedSays(es, sets, p)
  {
    hide Run, PortRules, Wanted, Copies, ExposedSays;
    OnlyOwnPort(exposed, sets, p);
    CopiesSay(PortRules(exposed, p.dport), es, sets, p);
  }

  lemma ExactChainAgrees(es: seq<Entry>)
    ensures Agrees(ChainOf(es), es)
  {
    hide PortRules, Wanted, ChainOf;
    ChainIsPerPort(es);
    forall q: nat ensures Copies(PortRules(ChainOf(es), q), Wanted(es, q)) {
      ChainPerPort(es, q);
      OneCopy(Wanted(es, q));
    }
  }

  lemma OneCopy(block: Chain)
    ensures Copies(block, block)
  {
    assert Repeat(block, 0) + block == block;
    assert block == Repeat(block, 1);
  }

  lemma {:induction false} ChainIsPerPort(es: seq<Entry>)
    ensures PerPort(ChainOf(es))
  {
    hide BlockOf, HasPort;
    if es != [] {
      var e := es[0];
      ChainIsPerPort(es[1..]);
      BlockShape(e.port, e.transport, e.scope, e.ips);
      assert PerPort(BlockOf(e)) by { BlockIsPerPort(e); }
    }
  }

  lemma BlockIsPerPort(e: Entry)
    ensures PerPort(BlockOf(e))
  {
    BlockShape(e.port, e.transport, e.scope, e.ips);
  }

  /** Compiler correctness: configuration, peers and registry decide every packet, whatever the sets hold. */
  lemma CompiledPolicy(cfg: Config, peers: seq<Peer>, exposed: Chain, es: seq<Entry>, sets: Sets, p: Packet)
    requires Agrees(exposed, es)
    ensures LetsIn(RenderInput(cfg) + PeerRules(peers), exposed, sets, p)
            <==> InputAllows(cfg, peers, ExposedSays(es, sets, p), sets, p)
    ensures LetsIn(RenderForward(cfg), exposed, sets, p) <==> ForwardAllows(cfg, ExposedSays(es, sets, p), sets, p)
  {
    hide LetsIn, RenderInput, RenderForward, InputAllows, ForwardAllows;
    InputImplementsPolicy(cfg, peers, exposed, sets, p);
    ForwardImplementsPolicy(cfg, exposed, sets, p);
    AgreeingChainImplements(exposed, es, sets, p);
  }

  // ---------- monotonicity ----------

  /** Normal lets in what Strict lets in, and beyond that exactly the SSH packets no exposure drops. */
  lemma NormalExtendsStrict(cfg: Config, exposed: Chain, sets: Sets, p: Packet)
    ensures var strict, normal := RenderInput(cfg.(profile := StrictProfile)),
            RenderInput(cfg.(profile := NormalProfile));
            LetsIn(normal, exposed, sets, p) <==>
            LetsIn(strict, exposed, sets, p) ||
            (p.proto == L4(Tcp) && SshPort(cfg, p.dport) && !Run(exposed, [], sets, p).Dropped?)
  {
    var strict, normal := cfg.(profile := StrictProfile), cfg.(profile := NormalProfile);
    InputAlone(strict, exposed, sets, p);
    InputAlone(normal, exposed, sets, p);
    assert SshPort(normal, p.dport) == SshPort(cfg, p.dport);
  }

  lemma InputAlone(cfg: Config, exposed: Chain, sets: Sets, p: Packet)
    ensures LetsIn(RenderInput(cfg), exposed, sets, p) <==> InputAllows(cfg, [], Run(exposed, [], sets, p), sets, p)
  {
    InputImplementsPolicy(cfg, [], exposed, sets, p);
    assert RenderInput(cfg) + PeerRules([]) == RenderInput(cfg);
  }

  /** Opening the web ports adds exactly TCP 80 and 443 that no exposure drops, to input and to forward. */
  lemma OpenWebExtends(cfg: Config, exposed: Chain, sets: Sets, p: Packet)
    ensures var gated, public := cfg.(openWeb := false), cfg.(openWeb := true);
            var gained := p.proto == L4(Tcp) && (p.dport == 80 || p.dport == 443)
              && !Run(exposed, [], sets, p).Dropped?;
            && (LetsIn(RenderInput(public), exposed, sets, p)
              <==> LetsIn(RenderInput(gated), exposed, sets, p) || gained)
            && (LetsIn(RenderForward(public), exposed, sets, p)
              <==> LetsIn(RenderForward(gated), exposed, sets, p) || gained)
  {
    hide LetsIn, RenderInput, RenderForward, Run;
    var gated, public := cfg.(openWeb := false), cfg.(openWeb := true);
    InputAlone(gated, exposed, sets, p);
    InputAlone(public, exposed, sets, p);
    ForwardImplementsPolicy(gated, exposed, sets, p);
    ForwardImplementsPolicy(public, exposed, sets, p);
  }
}
