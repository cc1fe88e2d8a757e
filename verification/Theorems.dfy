/**
 What the invariant of `Runs` means for packets, for the registry, for the provider sets and for peers.
 */
module Theorems {
  import opened Wrappers
  import opened Text
  import opened Cidr
  import opened Nft
  import opened Registry
  import opened Policy
  import opened State
  import opened Refreshing
  import opened Watchdog
  import opened Listing
  import opened Peering
  import opened Runs

  // ---------- policy ----------

  ghost predicate InputLetsIn(s: Node, p: Packet) { LetsIn(s.input, s.exposed, s.sets, p) }

  ghost predicate ForwardLetsIn(s: Node, p: Packet) { LetsIn(s.forward, s.exposed, s.sets, p) }

  lemma FitsAgrees(status: Status, exposed: Chain, es: seq<Entry>)
    requires ChainFits(status, exposed, es) && (status == Exact || status == Agreeing)
    ensures Agrees(exposed, es)
  {
    hide Agrees, ChainOf;
    if status == Exact {
      ExactChainAgrees(es);
    }
  }

  /**
   In every run, whenever the view is agreeing, the registry's entries decide what the exposed chain says; and where an
   installation describes the base chains, configuration, peers and entries decide every packet.
   */
  lemma PolicyInEveryRun(v: View, s: Node, ops: seq<Op>, p: Packet)
    requires Invariant(v, s) && OpsOk(ops)
    requires var w := ViewAfter(v, s, ops); w.status == Exact || w.status == Agreeing
    ensures var w, t := ViewAfter(v, s, ops), After(s, ops);
            var says := ExposedSays(w.es, t.sets, p);
            && Run(t.exposed, [], t.sets, p) == says
            && (w.base.Some? ==>
                var (cfg, peers) := w.base.value;
                && (InputLetsIn(t, p) <==> InputAllows(cfg, peers, says, t.sets, p))
                && (ForwardLetsIn(t, p) <==> ForwardAllows(cfg, says, t.sets, p)))
  {
    hide EntriesFit, ChainFits, Safe, LetsIn, InputAllows, ForwardAllows, ExposedSays, Agrees, After, ViewAfter;
    hide RenderInput, RenderForward, PeerRules, Run;
    RunKeeps(v, s, ops);
    var w, t := ViewAfter(v, s, ops), After(s, ops);
    FitsAgrees(w.status, t.exposed, w.es);
    AgreeingChainImplements(t.exposed, w.es, t.sets, p);
    if w.base.Some? {
      CompiledPolicy(w.base.value.0, w.base.value.1, t.exposed, w.es, t.sets, p);
    }
  }

  // ---------- registry and chain ----------

  /** The steps that keep the exposed chain equal to the registry's chain. */
  ghost predicate KeepsExact(s: Node, op: Op) {
    match op
    case DoInstall(cfg, env) => StageOf(s, cfg, env) != Unseeded
    case DoFire => !s.armed || s.committed
    case DoLose(_) => false
    case _ => true
  }

  ghost predicate AllKeepExact(s: Node, ops: seq<Op>) {
    ops == [] || (AllKeepExact(s, ops[..|ops| - 1]) && KeepsExact(After(s, ops[..|ops| - 1]), ops[|ops| - 1]))
  }

  lemma ExactStays(v: View, s: Node, op: Op)
    requires v.status == Exact && KeepsExact(s, op)
    ensures ViewStep(v, s, op).status == Exact
  {
    hide CheckExpose, StageOf, PeerAddr, Displace, Record, Restamp, DropPort;
  }

  lemma {:induction false} ExactStatus(v: View, s: Node, ops: seq<Op>)
    requires v.status == Exact && AllKeepExact(s, ops)
    ensures ViewAfter(v, s, ops).status == Exact
  {
    hide ViewStep, Step, KeepsExact;
    if ops != [] {
      var n := |ops| - 1;
      ExactStatus(v, s, ops[..n]);
      ExactStays(ViewAfter(v, s, ops[..n]), After(s, ops[..n]), ops[n]);
    }
  }

  /**
   In every run of expose, unexpose, reapply, refresh, watchdog, peer exposure, reinstall and committed timers, the
   exposed chain is, rule for rule and in order, the blocks of those registry lines that are the last for their port,
   and no key occurs twice.
   */
  lemma ChainEqualsRegistry(v: View, s: Node, ops: seq<Op>)
    requires Invariant(v, s) && OpsOk(ops) && v.status == Exact && AllKeepExact(s, ops)
    ensures var w, t := ViewAfter(v, s, ops), After(s, ops);
            && t.registry == RenderAll(w.es) && t.exposed == ChainOf(w.es)
            && (forall i, j :: 0 <= i < j < |w.es| ==> KeyOf(w.es[i]) != KeyOf(w.es[j]))
  {
    hide BaseFits, Safe, RenderAll, AllValid, ChainOf, After, ViewAfter, UniqueKeys;
    RunKeeps(v, s, ops);
    ExactStatus(v, s, ops);
    var w := ViewAfter(v, s, ops);
    forall i, j | 0 <= i < j < |w.es| ensures KeyOf(w.es[i]) != KeyOf(w.es[j]) {
      UniqueByIndex(w.es, i, j);
    }
  }

  /**
   A complete installation rebuilds exactly the chain the registry stands for, which is the chain before it when that
   was exact, and leaves the same entries in the same order, time stamps aside.
   */
  lemma ReinstallRecovers(v: View, s: Node, cfg: Config, env: InstallEnv)
    requires Invariant(v, s) && Ticks(env.clock) && StageOf(s, cfg, env) == Complete
    ensures var t := Install(s, cfg, env);
            && t.exposed == ChainOf(v.es) && (v.status == Exact ==> t.exposed == s.exposed)
            && s.registry == RenderAll(v.es) && t.registry == RenderAll(Restamp(v.es, env.clock))
            && |t.registry| == |s.registry|
  {
    hide Safe, BaseFits, RenderAll, AllValid, UniqueKeys, ChainOf, Install, StageOf, Restamp;
    InstallKeeps(v, s, cfg, env);
    RestampSameChain(v.es, env.clock);
    RenderLength(v.es);
    RenderLength(Restamp(v.es, env.clock));
  }

  /** The base hardening ruleset, before any allowlist, is a described state. */
  lemma BaseIsDescribed(s: Node, ports: seq<int>)
    requires s.input == INPUT_HEAD + [OpenTcp(ports)] + ICMP_RULES && s.forward == BASE_FORWARD && s.exposed == []
             && s.registry == []
    requires s.snapshot == Snapshot([], [], [], map[])
    ensures Invariant(View([], Exact, Exact, None), s)
  {
  }

  // ---------- provider and admin sets ----------

  ghost predicate Seeded(sets: Sets) {
    Allow4 in sets && Allow6 in sets && |sets[Allow4]| + |sets[Allow6]| >= 4
  }

  lemma SubsetCard<T>(a: set<T>, b: set<T>)
    requires a <= b
    ensures |a| <= |b|
  {
    assert b == a + (b - a);
  }

  lemma MergeKeepsSets(a: Sets, b: Sets)
    ensures AdminKept(a, MergeSets(a, b)) && (Seeded(a) ==> Seeded(MergeSets(a, b)))
  {
    var m := MergeSets(a, b);
    forall name | name in a ensures name in m && a[name] <= m[name] && |a[name]| <= |m[name]| {
      SubsetCard(a[name], m[name]);
    }
  }

  ghost predicate SetsGrow(a: Sets, b: Sets) { AdminKept(a, b) && (Seeded(a) ==> Seeded(b)) }

  lemma RefreshGrows(s: Node, text: string, loads: bool, now: int)
    ensures SetsGrow(s.sets, Refresh(s, text, loads, now).sets)
  {
    hide RefreshOk, Refresh, Accepted4, Accepted6;
    RefreshIsAllOrNothing(s, text, loads, now);
  }

  lemma WatchGrows(s: Node, w: WatchEnv)
    ensures SetsGrow(s.sets, Watch(s, w).sets)
  {
    hide Healthy, Watch, Refresh, Seeded;
    if Healthy(s, w.now) {
      HealthyStays(s, w);
    } else {
      RepairSets(s, w);
      RefreshGrows(s.(sets := Recreate(s.sets)), w.text, w.loads, w.now);
      MergeKeepsSets(s.sets, map[Allow4 := {}, Allow6 := {}, Admin4 := {}, Admin6 := {}]);
    }
  }

  lemma {:induction false} ReapplyKeepsSets(s: Node, lines: seq<string>, clock: Clock)
    ensures ReapplyLines(s, lines, clock).sets == s.sets
  {
    hide ReadArgs, CheckExpose;
    if lines != [] {
      ReapplyKeepsSets(s, lines[..|lines| - 1], clock);
    }
  }

  lemma InstallGrows(s: Node, cfg: Config, env: InstallEnv)
    ensures SetsGrow(s.sets, Install(s, cfg, env).sets)
  {
    hide Refresh, RefreshOk, ConfigSets, MergeSets, Seeded, ReapplyLines, SelfHeal;
    var armed := InstallUpToArm(s, cfg);
    MergeKeepsSets(s.sets, ConfigSets(cfg));
    MergeKeepsSets(s.sets, s.sets);
    RefreshGrows(armed, env.text, env.loads, env.now);
    var seeded := Refresh(armed, env.text, env.loads, env.now);
    ReapplyKeepsSets(seeded, seeded.registry, env.clock);
  }

  lemma StepGrows(s: Node, op: Op)
    ensures SetsGrow(s.sets, Step(s, op).sets)
  {
    hide Install, CheckExpose, ReapplyLines, Refresh, Watch, PeerAddr, Lose, Seeded, MergeSets;
    match op {
      case DoInstall(cfg, env) => InstallGrows(s, cfg, env);
      case DoReapply(clock) => ReapplyKeepsSets(s, s.registry, clock);
      case DoRefresh(text, loads, now) => RefreshGrows(s, text, loads, now);
      case DoWatch(w) => WatchGrows(s, w);
      case DoFire => MergeKeepsSets(s.sets, s.snapshot.sets);
      case _ =>
    }
  }

  /** Over every run the provider ranges never fall below four once seeded, and no admin element is ever lost. */
  lemma {:induction false} SetsOverRuns(s: Node, ops: seq<Op>)
    ensures AdminKept(s.sets, After(s, ops).sets)
    ensures Seeded(s.sets) ==> Seeded(After(s, ops).sets)
  {
    hide Step, Seeded;
    if ops != [] {
      var n := |ops| - 1;
      SetsOverRuns(s, ops[..n]);
      StepGrows(After(s, ops[..n]), ops[n]);
    }
  }

  // ---------- peers ----------

  /** In every reachable state the exposed chain has nothing to say about a cluster peer port. */
  lemma {:induction false} PeerPortsUnshadowed(exposed: Chain, sets: Sets, p: Packet)
    requires AllExposable(exposed) && p.dport in {8472, 2379, 2380, 10250}
    ensures Run(exposed, [], sets, p) == NoMatch
  {
    hide Matches;
    if exposed != [] {
      assert exposed[0] in exposed && forall r :: r in exposed[1..] ==> r in exposed;
      PeerPortsUnshadowed(exposed[1..], sets, p);
      assert !Matches(exposed[0], sets, p) by { ExposableMisses(exposed[0], sets, p); }
    }
  }

  lemma ExposableMisses(r: Rule, sets: Sets, p: Packet)
    requires Exposable(r) && p.dport in {8472, 2379, 2380, 10250}
    ensures !Matches(r, sets, p)
  {
    var q := r.dport.value.ports;
    assert q == [q[0]];
  }

  /** Exactly the steps that leave a peer's rule in the input chain: no completed flush, no displacing peer call. */
  ghost predicate KeepsPeer(s: Node, op: Op, q: Peer) {
    match op
    case DoInstall(cfg, env) => StageOf(s, cfg, env) == Refused || StageOf(s, cfg, env) == Undone
    case DoPeer(port, t, raw) =>
      PeerAddr(raw).Some? ==> var newer := Peer(port, t, PeerAddr(raw).value); newer == q || !Displaces(newer, q)
    case _ => true
  }

  lemma PeerRuleInjective(a: Peer, b: Peer)
    requires PeerRule(a) == PeerRule(b)
    ensures a == b
  {
    assert [a.port][0] == [b.port][0];
  }

  lemma RenderedHasNoPeerRule(cfg: Config, q: Peer)
    ensures PeerRule(q) !in RenderInput(cfg)
  {
    hide RenderInput, Hit;
    RenderedHasNoPeer(cfg, q.port, q.text);
  }

  lemma {:induction false} ReapplyInput(s: Node, lines: seq<string>, clock: Clock)
    ensures forall r: Rule :: r.action != JumpExposed ==> (r in ReapplyLines(s, lines, clock).input <==> r in s.input)
  {
    hide ReadArgs, CheckExpose, RemovePort, BlockOf;
    if lines != [] {
      ReapplyInput(s, lines[..|lines| - 1], clock);
    }
  }

  lemma InstallPeerRule(s: Node, cfg: Config, env: InstallEnv, q: Peer)
    requires PeerRule(q) in s.input
    ensures PeerRule(q) in Install(s, cfg, env).input <==> KeepsPeer(s, DoInstall(cfg, env), q)
  {
    hide Refresh, ReapplyLines, RefreshOk, SelfHeal, RenderInput, RenderForward, PeerRule;
    UndoneIsNeutral(s, cfg);
    var armed := InstallUpToArm(s, cfg);
    var seeded := Refresh(armed, env.text, env.loads, env.now);
    RefreshKeepsRules(armed, env.text, env.loads, env.now);
    RenderedHasNoPeerRule(cfg, q);
    assert armed.input == RenderInput(cfg) by { assert [] + RenderInput(cfg) == RenderInput(cfg); }
    ReapplyInput(seeded, seeded.registry, env.clock);
    assert PeerRule(q).action == Accept by { PeerRuleAccepts(q); }
  }

  lemma PeerRuleAccepts(q: Peer)
    ensures PeerRule(q).action == Accept
  {
  }

  lemma PeerPeerRule(s: Node, port: nat, t: Transport, raw: string, q: Peer)
    requires PeerRule(q) in s.input
    ensures PeerRule(q) in ExposePeer(s, port, t, raw).input <==> KeepsPeer(s, DoPeer(port, t, raw), q)
  {
    hide PeerAddr, DeleteHits, Hit, Displaces, PeerRule;
    if PeerAddr(raw).Some? {
      var n := Peer(port, t, PeerAddr(raw).value);
      DeleteKeeps(s.input, n.port, n.text);
      HitIsDisplaced(n, q);
      if PeerRule(n) == PeerRule(q) {
        PeerRuleInjective(n, q);
      }
    }
  }

  /** One step keeps a peer's rule if and only if it is of the keeping kind. */
  lemma StepPeerRule(s: Node, op: Op, q: Peer)
    requires PeerRule(q) in s.input
    ensures PeerRule(q) in Step(s, op).input <==> KeepsPeer(s, op, q)
  {
    hide Install, CheckExpose, ReapplyLines, Refresh, Watch, ExposePeer, PeerAddr;
    hide Lose, StageOf, Displaces, PeerRule, RenderLine, KeyPrefix, BlockOf;
    PeerRuleAccepts(q);
    match op {
      case DoInstall(cfg, env) => InstallPeerRule(s, cfg, env, q);
      case DoReapply(clock) => ReapplyInput(s, s.registry, clock);
      case DoRefresh(text, loads, now) => RefreshKeepsRules(s, text, loads, now);
      case DoWatch(w) => WatchKeepsBaseChains(s, w);
      case DoPeer(port, t, raw) => PeerPeerRule(s, port, t, raw, q);
      case _ =>
    }
  }

  ghost predicate AllKeepPeer(s: Node, ops: seq<Op>, q: Peer) {
    ops == [] || (AllKeepPeer(s, ops[..|ops| - 1], q) && KeepsPeer(After(s, ops[..|ops| - 1]), ops[|ops| - 1], q))
  }

  lemma {:induction false} PeerRuleStays(s: Node, ops: seq<Op>, q: Peer)
    requires PeerRule(q) in s.input && AllKeepPeer(s, ops, q)
    ensures PeerRule(q) in After(s, ops).input
  {
    hide Step, KeepsPeer, PeerRule;
    if ops != [] {
      var n := |ops| - 1;
      PeerRuleStays(s, ops[..n], q);
      StepPeerRule(After(s, ops[..n]), ops[n], q);
    }
  }

  /** The fleet exposes bare addresses: such a call keeps every peer's rule, whatever its port and protocol. */
  lemma HostCallsKeep(s: Node, port: nat, t: Transport, raw: string, q: Peer)
    requires Free(TrimSpace(raw), '/') && PeerText(q.text)
    ensures KeepsPeer(s, DoPeer(port, t, raw), q)
  {
    hide Meaning, PeerAddr, HostText, PeerText, Listed, Trim;
    PeerAddrIsNormal(raw);
    if PeerAddr(raw).Some? {
      BareAddressIsHost(raw);
      HostDisplacesNone(Peer(port, t, PeerAddr(raw).value), q);
    }
  }

  /** With the fleet's own protocol per port, exposing another or the same address in full never displaces a peer. */
  lemma FleetCallsKeep(s: Node, port: nat, raw: string, q: Peer)
    requires q.transport == PeerProto(q.port)
    requires PeerAddr(raw).Some? ==> (PeerAddr(raw).value <= Listed(q.text) ==> PeerAddr(raw).value == q.text)
    ensures KeepsPeer(s, DoPeer(port, PeerProto(port), raw), q)
  {
    hide PeerAddr;
  }

  ghost predicate FromPeer(q: Peer, p: Packet) {
    p.proto == L4(q.transport) && p.dport == q.port && Denotes(q.text, p.src)
  }

  /**
   After a peer port has been exposed, every packet of that peer is let in after every further run of keeping steps,
   whatever is exposed, reapplied, repaired, lost or rolled back meanwhile.
   */
  lemma PeersNeverShadowed(v: View, s: Node, t: Transport, raw: string, port: nat, ops: seq<Op>, p: Packet)
    requires Invariant(v, s) && OpsOk(ops) && port in {8472, 2379, 2380, 10250} && PeerAddr(raw).Some?
    requires var q := Peer(port, t, PeerAddr(raw).value);
             AllKeepPeer(ExposePeer(s, port, t, raw), ops, q)
             && FromPeer(q, p)
    ensures InputLetsIn(After(ExposePeer(s, port, t, raw), ops), p)
  {
    hide Invariant, AllKeepPeer, PeerAddr, Denotes, After, ViewAfter, ViewStep, DeleteHits, PeerRule;
    var q := Peer(port, t, PeerAddr(raw).value);
    var s1 := ExposePeer(s, port, t, raw);
    var v1 := ViewStep(v, s, DoPeer(port, t, raw));
    StepKeeps(v, s, DoPeer(port, t, raw));
    assert PeerRule(q) in s1.input;
    PeerRuleStays(s1, ops, q);
    RunKeeps(v1, s1, ops);
    var e := After(s1, ops);
    InvariantSafe(ViewAfter(v1, s1, ops), e);
    PeerPortsUnshadowed(e.exposed, e.sets, p);
    PeerRuleMatches(q, e.sets, p);
    AcceptReached(e.input, PeerRule(q), e.exposed, e.sets, p);
  }

  /** Runs without another installation whose peer calls are for single hosts. */
  ghost predicate FleetRun(ops: seq<Op>) {
    forall op :: op in ops ==> !op.DoInstall? && (op.DoPeer? ==> Free(TrimSpace(op.address), '/'))
  }

  lemma {:induction false} FleetRunKeeps(s: Node, ops: seq<Op>, q: Peer)
    requires FleetRun(ops) && PeerText(q.text)
    ensures AllKeepPeer(s, ops, q)
  {
    hide Trim, PeerText, Displaces, PeerAddr;
    if ops != [] {
      var n := |ops| - 1;
      assert ops[n] in ops && forall op :: op in ops[..n] ==> op in ops;
      FleetRunKeeps(s, ops[..n], q);
      match ops[n] {
        case DoPeer(port, t, raw) => HostCallsKeep(After(s, ops[..n]), port, t, raw, q);
        case _ =>
      }
    }
  }

  /**
   The fleet's peers: after the call for an address on 8472, 2379, 2380 or 10250, every packet from that address to that
   port, by UDP for 8472 and by TCP for the others, is let in throughout every such run, whatever else is exposed or
   repaired.
   */
  lemma FleetPeerGetsIn(v: View, s: Node, port: nat, raw: string, ops: seq<Op>, p: Packet)
    requires Invariant(v, s) && OpsOk(ops) && FleetRun(ops) && port in {8472, 2379, 2380, 10250}
    requires Denotes(raw, p.src) && p.dport == port && p.proto == L4(if port == 8472 then Udp else Tcp)
    ensures InputLetsIn(After(ExposePeer(s, port, PeerProto(port), raw), ops), p)
  {
    hide Invariant, Trim, Meaning, PeerAddr, ExposePeer, InputLetsIn, After, NormalizeCIDR, AllKeepPeer;
    PeerAddrIsNormal(raw);
    NormalizedText(raw);
    NormalizeMeaning(raw);
    var q := Peer(port, PeerProto(port), NormalizeCIDR(raw));
    FleetRunKeeps(ExposePeer(s, port, PeerProto(port), raw), ops, q);
    PeersNeverShadowed(v, s, PeerProto(port), raw, port, ops, p);
  }

  lemma PeerRuleMatches(q: Peer, sets: Sets, p: Packet)
    requires FromPeer(q, p)
    ensures Matches(PeerRule(q), sets, p) && PeerRule(q).action == Accept
  {
    hide Denotes;
  }

  lemma InvariantSafe(v: View, s: Node)
    requires Invariant(v, s)
    ensures Safe(s) && NoDrop(s.input) && AllExposable(s.exposed)
  {
    hide EntriesFit, ChainFits, BaseFits, Exposable;
  }
}
