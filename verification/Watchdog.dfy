/**
 The five-minute state watchdog: what it calls a divergence, what it repairs, and when it notifies.
 */
module Watchdog {
  import opened Wrappers
  import opened Text
  import opened Cidr
  import opened Nft
  import opened Registry
  import opened Policy
  import opened State
  import opened Refreshing

  const STALE_AFTER := 90000
  const COOLDOWN := 3600

  /** The fetched text, nft's answer to the refresh batch, the clock and the digest of the reason text. */
  datatype WatchEnv = WatchEnv(text: string, loads: bool, now: int, digest: string)

  // ---------- detection ----------

  predicate AllSets(sets: Sets) {
    Allow4 in sets && Allow6 in sets && Admin4 in sets && Admin6 in sets
  }

  /** `${e%%/'*'}` of an element line: everything before the first slash. */
  function Bare(e: string): string { Split(e, '/')[0] }

  /** `nft get element`: the bare address lies in one of the set's elements. */
  predicate ElementPresent(sets: Sets, name: SetName, e: string) {
    && name in sets && ParseAddr(Bare(e)).Some?
    && exists t :: t in sets[name] && Denotes(t, ParseAddr(Bare(e)).value)
  }

  predicate AdminComplete(sets: Sets, name: SetName, file: Option<seq<string>>) {
    file.Some? ==> forall i ::
                     0 <= i < |file.value| && TrimSpace(file.value[i]) != ""
                     ==> ElementPresent(sets, name, TrimSpace(file.value[i]))
  }

  predicate Fresh(lastSync: Option<int>, now: int) {
    lastSync.Some? && now - lastSync.value <= STALE_AFTER
  }

  /** `grep -E "dport $port([^0-9]|$)"` on the exposed chain. */
  predicate PortSeen(exposed: Chain, text: string) {
    Canonical(text) && PortRules(exposed, Val(text)) != []
  }

  /** The first field of a registry line, when it is all digits. */
  function LinePort(line: string): Option<string> {
    var f := Fields(line);
    if f != [] && Digits(f[0]) then Some(f[0]) else None
  }

  /** MISSING_EXPOSED: one item per registry line, so a port with two lines is listed twice. */
  function Missing(lines: seq<string>, exposed: Chain): seq<string> {
    if lines == [] then []
    else
      var n := |lines| - 1;
      var port := LinePort(lines[n]);
      Missing(lines[..n], exposed) + (if port.Some? && !PortSeen(exposed, port.value) then [port.value] else [])
  }

  predicate Healthy(s: Node, now: int) {
    && AllSets(s.sets)
    && AdminComplete(s.sets, Admin4, s.admin4) && AdminComplete(s.sets, Admin6, s.admin6)
    && Fresh(s.lastSync, now)
    && Missing(s.registry, s.exposed) == []
  }

  // ---------- repair ----------

  function Recreate(sets: Sets): Sets {
    MergeSets(sets, map[Allow4 := {}, Allow6 := {}, Admin4 := {}, Admin6 := {}])
  }

  function RestoreAccepts(port: nat, t: Transport, ips: seq<string>): Chain {
    if ips == [] then []
    else
      var n := |ips| - 1;
      RestoreAccepts(port, t, ips[..n]) +
      (if Meaning(ips[n]).Some? then [PortRule(port, t, FromText(ips[n]), Accept)] else [])
  }

  /** The `case "$SC"` that re-adds the rules of one registry line. */
  function RestoreRules(line: string): Chain {
    var f := Fields(line);
    if |f| < 3 || !Canonical(f[0]) || Val(f[0]) > 65535 || TransportOf(f[1]).None? then []
    else
      var port, t := Val(f[0]), TransportOf(f[1]).value;
      match ScopeOf(f[2])
      case Some(ScopeAdmin) => [
        PortRule(port, t, InSet(Admin4), Accept),
        PortRule(port, t, InSet(Admin6), Accept),
        PortRule(port, t, Anyone, Drop)
      ]
      case Some(ScopeGlobal) => [PortRule(port, t, Anyone, Accept)]
      case Some(ScopeIps) =>
        RestoreAccepts(port, t, Split(if |f| > 3 then f[3] else "", ',')) + [PortRule(port, t, Anyone, Drop)]
      case _ => []
  }

  function RestorePort(exposed: Chain, lines: seq<string>, port: string): Chain {
    match LastLine(lines, port + " ")
    case Some(line) => exposed + RestoreRules(line)
    case None => exposed
  }

  function RestoreAll(exposed: Chain, lines: seq<string>, missing: seq<string>): Chain {
    if missing == [] then exposed
    else RestorePort(RestoreAll(exposed, lines, missing[..|missing| - 1]), lines, missing[|missing| - 1])
  }

  // ---------- notification ----------

  /** The last recorded time for a digest, 0 when there is none. */
  function LastNotified(file: seq<(string, int)>, digest: string): int {
    if file == [] then 0
    else
      var n := |file| - 1;
      if file[n].0 == digest then file[n].1 else LastNotified(file[..n], digest)
  }

  function Notify(s: Node, kind: AlertKind, w: WatchEnv): Node {
    if w.now - LastNotified(s.notifyFile, w.digest) < COOLDOWN then s
    else s.(notifyFile := s.notifyFile + [(w.digest, w.now)], alerts := s.alerts + [Alert(kind, w.digest, w.now)])
  }

  // ---------- one run ----------

  /** After the refresh, the exposed rules found missing at the start are appended again. */
  function Restored(s: Node, w: WatchEnv): Node {
    var r := Refresh(s.(sets := Recreate(s.sets)), w.text, w.loads, w.now);
    r.(exposed := RestoreAll(r.exposed, r.registry, Missing(s.registry, s.exposed)))
  }

  predicate StillBroken(before: Node, after: Node) {
    || !AllSets(after.sets)
    || !AdminComplete(after.sets, Admin4, after.admin4) || !AdminComplete(after.sets, Admin6, after.admin6)
    || exists i ::
         0 <= i < |Missing(before.registry, before.exposed)|
         && !PortSeen(after.exposed, Missing(before.registry, before.exposed)[i])
  }

  predicate RefreshSucceeds(s: Node, w: WatchEnv) {
    RefreshOk(SelfHeal(s.(sets := Recreate(s.sets))), w.text, w.loads)
  }

  function Watch(s: Node, w: WatchEnv): Node {
    if Healthy(s, w.now) then s
    else if RefreshSucceeds(s, w) then
      Notify(Restored(s, w), if StillBroken(s, Restored(s, w)) then Incomplete else Repaired, w)
    else Notify(Refresh(s.(sets := Recreate(s.sets)), w.text, w.loads, w.now), RepairFailed, w)
  }

  // ---------- repair of a rendered registry ----------

  lemma {:induction false} RestoreStored(port: nat, t: Transport, ips: seq<string>)
    requires forall x :: x in ips ==> Meaning(x).Some?
    ensures RestoreAccepts(port, t, ips) == AcceptEach(port, t, ips)
  {
    hide Meaning;
    if ips != [] {
      var n := |ips| - 1;
      assert ips == ips[..n] + [ips[n]] && ips[n] in ips;
      RestoreStored(port, t, ips[..n]);
    }
  }

  lemma StoredMeans(ip: string)
    requires Stored(ip, false) || Stored(ip, true)
    ensures Meaning(ip).Some?
  {
  }

  lemma EntryIpsDenote(e: Entry)
    requires ValidEntry(e) && e.scope.ScopeIps?
    ensures forall x :: x in e.ips ==> Meaning(x).Some?
  {
    hide Stored, Normal, FirstBad, Meaning;
    NormalIsFixed(e.ips);
    forall x | x in e.ips ensures Meaning(x).Some? {
      StoredMeans(x);
    }
  }

  lemma PortTextReads(port: nat)
    ensures Canonical(Dec(port)) && Val(Dec(port)) == port && Digits(Dec(port))
  {
    DecPrints(port);
  }

  /** The watchdog's script rebuilds from a written line the very block the exposure compiled to. */
  lemma RestoreIsBlock(e: Entry)
    requires ValidEntry(e)
    ensures RestoreRules(RenderLine(e)) == BlockOf(e)
  {
    hide Fields, Dec, Val, Canonical, RenderLine, TransportText, ScopeText;
    hide TransportOf, ScopeOf, Normal, FirstBad, Split, Join, RestoreAccepts, Meaning;
    LineFields(e);
    PortTextReads(e.port);
    KeyWords(e.transport, e.scope);
    if e.scope.ScopeIps? {
      EntryIpsField(e);
      EntryIpsDenote(e);
      RestoreStored(e.port, e.transport, e.ips);
    }
  }

  lemma EntryLinePort(e: Entry)
    requires ValidEntry(e)
    ensures LinePort(RenderLine(e)) == Some(Dec(e.port))
  {
    hide Fields, Dec, RenderLine;
    LineFields(e);
    PortTextReads(e.port);
  }

  /** The ports of the registry that have no rule, one per line. */
  function MissingPorts(es: seq<Entry>, exposed: Chain): seq<nat> {
    if es == [] then []
    else
      var n := |es| - 1;
      MissingPorts(es[..n], exposed) + (if PortRules(exposed, es[n].port) == [] then [es[n].port] else [])
  }

  function Decs(ports: seq<nat>): seq<string> {
    if ports == [] then [] else Decs(ports[..|ports| - 1]) + [Dec(ports[|ports| - 1])]
  }

  lemma SeenIffRules(exposed: Chain, port: nat)
    ensures PortSeen(exposed, Dec(port)) <==> PortRules(exposed, port) != []
  {
    hide Dec, Val, Canonical, PortRules;
    PortTextReads(port);
  }

  lemma MissingStep(lines: seq<string>, line: string, exposed: Chain)
    ensures Missing(lines + [line], exposed) ==
            var port := LinePort(line);
            if port.Some? && !PortSeen(exposed, port.value)
              then Missing(lines, exposed) + [port.value] else Missing(lines, exposed)
  {
    hide LinePort, PortSeen;
    assert (lines + [line])[..|lines|] == lines;
  }

  lemma DecsStep(ports: seq<nat>, port: nat)
    ensures Decs(ports + [port]) == Decs(ports) + [Dec(port)]
  {
    hide Dec;
    assert (ports + [port])[..|ports|] == ports;
  }

  lemma MissingPortsStep(es: seq<Entry>, e: Entry, exposed: Chain)
    ensures MissingPorts(es + [e], exposed) ==
            if PortRules(exposed, e.port) == [] then MissingPorts(es, exposed) + [e.port] else MissingPorts(es, exposed)
  {
    hide PortRules;
    assert (es + [e])[..|es|] == es;
  }

  lemma {:induction false} MissingOfRendered(es: seq<Entry>, exposed: Chain)
    requires AllValid(es)
    ensures Missing(RenderAll(es), exposed) == Decs(MissingPorts(es, exposed))
  {
    hide Dec, RenderLine, RenderAll, PortRules, PortSeen, LinePort, ValidEntry, Missing, MissingPorts, Decs;
    if es == [] {
      EmptyRegistry();
      NothingMissing(exposed);
    } else {
      var n := |es| - 1;
      var init, e := es[..n], es[n];
      assert es == init + [e] && e in es;
      MissingOfRendered(init, exposed);
      RenderSnoc(init, e);
      MissingStep(RenderAll(init), RenderLine(e), exposed);
      EntryLinePort(e);
      SeenIffRules(exposed, e.port);
      MissingPortsStep(init, e, exposed);
      DecsStep(MissingPorts(init, exposed), e.port);
    }
  }

  lemma NothingMissing(exposed: Chain)
    ensures Missing([], exposed) == [] && MissingPorts([], exposed) == [] && Decs([]) == []
  {
  }

  /** Appending the wanted block of each listed port. */
  function AppendWanted(exposed: Chain, es: seq<Entry>, ports: seq<nat>): Chain {
    if ports == [] then exposed
    else AppendWanted(exposed, es, ports[..|ports| - 1]) + Wanted(es, ports[|ports| - 1])
  }

  lemma RestoreOne(exposed: Chain, es: seq<Entry>, port: nat)
    requires AllValid(es)
    ensures RestorePort(exposed, RenderAll(es), Dec(port)) == exposed + Wanted(es, port)
  {
    hide Dec, RenderLine, RenderAll, RestoreRules, BlockOf, LastLine, LastFor, ValidEntry;
    GrepFindsLast(es, port);
    LastIn(es, port);
    match LastFor(es, port) {
      case Some(e) => RestoreIsBlock(e);
      case None => assert exposed + [] == exposed;
    }
  }

  lemma {:induction false} RestoreOfRendered(exposed: Chain, es: seq<Entry>, ports: seq<nat>)
    requires AllValid(es)
    ensures RestoreAll(exposed, RenderAll(es), Decs(ports)) == AppendWanted(exposed, es, ports)
  {
    hide Dec, RenderAll, RestorePort, Wanted, AllValid;
    if ports != [] {
      var n := |ports| - 1;
      assert ports == ports[..n] + [ports[n]];
      RestoreOfRendered(exposed, es, ports[..n]);
      DecsStep(ports[..n], ports[n]);
      assert Decs(ports)[..|Decs(ports)| - 1] == Decs(ports[..n]);
      RestoreOne(AppendWanted(exposed, es, ports[..n]), es, ports[n]);
    }
  }

  // ---------- healing ----------

  function Count(ports: seq<nat>, q: nat): nat {
    if ports == [] then 0 else Count(ports[..|ports| - 1], q) + (if ports[|ports| - 1] == q then 1 else 0)
  }

  lemma WantedIsPerPort(es: seq<Entry>, port: nat, q: nat)
    ensures PortRules(Wanted(es, port), q) == if q == port then Wanted(es, port) else []
    ensures PerPort(Wanted(es, port))
  {
    hide PortRules, BlockOf, LastFor, PerPort;
    LastIn(es, port);
    match LastFor(es, port) {
      case Some(e) =>
        BlockPort(e, q);
        BlockIsPerPort(e);
      case None =>
        RemoveNone(q);
        assert PerPort([]) by { NoRules(); }
    }
  }

  lemma NoRules()
    ensures PerPort([])
  {
  }

  lemma PerPortConcat(a: Chain, b: Chain)
    requires PerPort(a) && PerPort(b)
    ensures PerPort(a + b)
  {
  }

  lemma AppendOnce(chain: Chain, es: seq<Entry>, port: nat, q: nat)
    requires PerPort(chain)
    ensures PerPort(chain + Wanted(es, port))
    ensures PortRules(chain + Wanted(es, port), q) == PortRules(chain, q) + (if q == port then Wanted(es, q) else [])
  {
    hide PortRules, Wanted, PerPort;
    PortRulesConcat(chain, Wanted(es, port), q);
    WantedIsPerPort(es, port, q);
    PerPortConcat(chain, Wanted(es, port));
  }

  lemma RepeatMore(head: Chain, block: Chain, k: nat)
    ensures head + Repeat(block, k) + block == head + Repeat(block, k + 1)
    ensures head + Repeat(block, k) + [] == head + Repeat(block, k)
  {
  }

  lemma {:induction false} AppendedPortRules(exposed: Chain, es: seq<Entry>, ports: seq<nat>, q: nat)
    requires PerPort(exposed)
    ensures PerPort(AppendWanted(exposed, es, ports))
    ensures PortRules(AppendWanted(exposed, es, ports), q) ==
            PortRules(exposed, q) + Repeat(Wanted(es, q), Count(ports, q))
  {
    hide PortRules, Wanted, PerPort, Repeat;
    if ports == [] {
      RepeatZero(Wanted(es, q));
      assert PortRules(exposed, q) + [] == PortRules(exposed, q);
    } else {
      var init, port := ports[..|ports| - 1], ports[|ports| - 1];
      AppendedPortRules(exposed, es, init, q);
      AppendOnce(AppendWanted(exposed, es, init), es, port, q);
      RepeatMore(PortRules(exposed, q), Wanted(es, q), Count(init, q));
    }
  }

  lemma CountStep(ports: seq<nat>, port: nat, q: nat)
    ensures Count(ports + [port], q) == Count(ports, q) + (if port == q then 1 else 0)
  {
    assert (ports + [port])[..|ports|] == ports;
  }

  lemma {:induction false} CountMissing(es: seq<Entry>, exposed: Chain, q: nat)
    ensures Count(MissingPorts(es, exposed), q) > 0 <==> PortRules(exposed, q) == [] && LastFor(es, q).Some?
  {
    hide PortRules, MissingPorts, Count, LastFor;
    if es == [] {
      NothingMissing(exposed);
      EmptyRegistry();
      CountNone(q);
    } else {
      var n := |es| - 1;
      var init, e := es[..n], es[n];
      assert es == init + [e];
      CountMissing(init, exposed, q);
      MissingPortsStep(init, e, exposed);
      CountStep(MissingPorts(init, exposed), e.port, q);
      EntryStep(init, e);
    }
  }

  lemma CountNone(q: nat)
    ensures Count([], q) == 0
  {
  }

  /** Agreement up to ports whose rules have all been lost. */
  ghost predicate LossyAgrees(exposed: Chain, es: seq<Entry>) {
    PerPort(exposed) && forall q: nat :: PortRules(exposed, q) == [] || Copies(PortRules(exposed, q), Wanted(es, q))
  }

  lemma HealedPort(exposed: Chain, es: seq<Entry>, q: nat)
    requires LossyAgrees(exposed, es)
    ensures Copies(PortRules(AppendWanted(exposed, es, MissingPorts(es, exposed)), q), Wanted(es, q))
  {
    hide PortRules, LastFor, Repeat;
    var ports := MissingPorts(es, exposed);
    var k := Count(ports, q);
    AppendedPortRules(exposed, es, ports, q);
    CountMissing(es, exposed, q);
    if k > 0 {
      assert PortRules(exposed, q) == [];
      assert [] + Repeat(Wanted(es, q), k) == Repeat(Wanted(es, q), k);
    } else {
      RepeatZero(Wanted(es, q));
      assert PortRules(exposed, q) + [] == PortRules(exposed, q);
      if PortRules(exposed, q) == [] {
        assert Wanted(es, q) == [];
        OneCopy([]);
      }
    }
  }

  lemma RepeatZero(block: Chain)
    ensures Repeat(block, 0) == []
  {
  }

  /** Appending the wanted blocks of the missing ports, as often as they are listed, restores agreement. */
  lemma AppendingHeals(exposed: Chain, es: seq<Entry>)
    requires LossyAgrees(exposed, es)
    ensures Agrees(AppendWanted(exposed, es, MissingPorts(es, exposed)), es)
  {
    hide PortRules, Wanted, Copies, MissingPorts, AppendWanted;
    AppendedPortRules(exposed, es, MissingPorts(es, exposed), 0);
    forall q: nat ensures Copies(PortRules(AppendWanted(exposed, es, MissingPorts(es, exposed)), q), Wanted(es, q)) {
      HealedPort(exposed, es, q);
    }
  }

  lemma {:induction false} MissingHaveNone(es: seq<Entry>, exposed: Chain)
    ensures forall q :: q in MissingPorts(es, exposed) ==> PortRules(exposed, q) == []
  {
    hide PortRules;
    if es != [] {
      MissingHaveNone(es[..|es| - 1], exposed);
    }
  }

  lemma EmptyCopies(block: Chain)
    requires Copies([], block)
    ensures block == []
  {
    var k: nat :| k > 0 && [] == Repeat(block, k);
    assert |Repeat(block, k)| == |Repeat(block, k - 1)| + |block|;
  }

  /** Where every port agrees, only ports without rules of their own count as missing, and repair appends nothing. */
  lemma {:induction false} AgreeingUntouched(exposed: Chain, es: seq<Entry>, ports: seq<nat>)
    requires Agrees(exposed, es) && forall q :: q in ports ==> PortRules(exposed, q) == []
    ensures AppendWanted(exposed, es, ports) == exposed
  {
    hide PortRules, Wanted, Copies;
    if ports != [] {
      var n := |ports| - 1;
      AgreeingUntouched(exposed, es, ports[..n]);
      assert ports[n] in ports && Copies(PortRules(exposed, ports[n]), Wanted(es, ports[n]));
      EmptyCopies(Wanted(es, ports[n]));
      assert exposed + [] == exposed;
    }
  }

  lemma RefreshKeepsRules(s: Node, text: string, loads: bool, now: int)
    ensures var t := Refresh(s, text, loads, now); t == s.(sets := t.sets, lastSync := t.lastSync)
  {
    hide HealSet, RefreshOk;
  }

  /** One watchdog run whose refresh succeeds, or that finds nothing wrong, ends with every port agreeing again. */
  lemma WatchHeals(s: Node, es: seq<Entry>, w: WatchEnv)
    requires s.registry == RenderAll(es) && AllValid(es) && LossyAgrees(s.exposed, es)
    requires RefreshSucceeds(s, w) || Healthy(s, w.now)
    ensures Agrees(Watch(s, w).exposed, es)
  {
    hide Refresh, RefreshSucceeds, Agrees, LossyAgrees, AllSets, AdminComplete;
    hide Fresh, StillBroken, Missing, RestoreAll, RenderAll, AllValid;
    MissingOfRendered(es, s.exposed);
    RestoreOfRendered(s.exposed, es, MissingPorts(es, s.exposed));
    AppendingHeals(s.exposed, es);
    RefreshKeepsRules(s.(sets := Recreate(s.sets)), w.text, w.loads, w.now);
    if Healthy(s, w.now) {
      DecsEmpty(MissingPorts(es, s.exposed));
    }
  }

  lemma DecsEmpty(ports: seq<nat>)
    requires Decs(ports) == []
    ensures ports == []
  {
  }

  predicate OneOf(r: Rule, ports: set<nat>) { exists q :: q in ports && ForPort(r, q) }

  /** Loss of all rules of any set of ports. */
  function Lose(rules: Chain, ports: set<nat>): Chain {
    if rules == [] then []
    else
      var n := |rules| - 1;
      Lose(rules[..n], ports) + (if OneOf(rules[n], ports) then [] else [rules[n]])
  }

  lemma {:induction false} LoseIn(rules: Chain, ports: set<nat>)
    ensures forall r :: r in Lose(rules, ports) ==> r in rules
  {
    hide OneOf;
    if rules != [] {
      LoseIn(rules[..|rules| - 1], ports);
    }
  }

  lemma LostOrOther(r: Rule, ports: set<nat>, q: nat)
    requires ForPort(r, q)
    ensures OneOf(r, ports) <==> q in ports
  {
    if OneOf(r, ports) {
      var x :| x in ports && ForPort(r, x);
      assert [x] == [q];
      assert x == [x][0] == q;
    }
  }

  lemma {:induction false} LosePortRules(rules: Chain, ports: set<nat>, q: nat)
    ensures PortRules(Lose(rules, ports), q) == if q in ports then [] else PortRules(rules, q)
  {
    hide OneOf, PortRules, ForPort;
    if rules == [] {
      RemoveNone(q);
    } else {
      var n := |rules| - 1;
      var init, x := rules[..n], rules[n];
      assert rules == init + [x];
      LosePortRules(init, ports, q);
      PortStep(init, x, q);
      PortStep(Lose(init, ports), x, q);
      assert Lose(init, ports) + [] == Lose(init, ports);
      if ForPort(x, q) {
        LostOrOther(x, ports, q);
      }
    }
  }

  lemma LosingIsLossy(exposed: Chain, es: seq<Entry>, ports: set<nat>)
    requires LossyAgrees(exposed, es)
    ensures LossyAgrees(Lose(exposed, ports), es)
  {
    hide PortRules, Lose, Copies, Wanted;
    LoseIn(exposed, ports);
    forall q: nat ensures PortRules(Lose(exposed, ports), q) == []
      || Copies(PortRules(Lose(exposed, ports), q), Wanted(es, q)) {
      LosePortRules(exposed, ports, q);
    }
  }

  /**
   Healing, packet by packet: whatever set of ports was lost, every chain decides as before the loss, for any set
   contents.
   */
  lemma WatchRestoresVerdicts(s: Node, es: seq<Entry>, ports: set<nat>, w: WatchEnv, sets: Sets, p: Packet)
    requires s.registry == RenderAll(es) && AllValid(es) && Agrees(s.exposed, es)
    requires var lost := s.(exposed := Lose(s.exposed, ports)); RefreshSucceeds(lost, w) || Healthy(lost, w.now)
    ensures var lost := s.(exposed := Lose(s.exposed, ports));
            && Run(Watch(lost, w).exposed, [], sets, p) == Run(s.exposed, [], sets, p)
            && Run(Watch(lost, w).input, Watch(lost, w).exposed, sets, p) == Run(s.input, s.exposed, sets, p)
            && Run(Watch(lost, w).forward, Watch(lost, w).exposed, sets, p) == Run(s.forward, s.exposed, sets, p)
  {
    hide Run, Agrees, LossyAgrees, RenderAll, AllValid, Watch, Healthy, RefreshSucceeds, Lose;
    var lost := s.(exposed := Lose(s.exposed, ports));
    AgreesIsLossy(s.exposed, es);
    LosingIsLossy(s.exposed, es, ports);
    WatchHeals(lost, es, w);
    AgreeingChainImplements(s.exposed, es, sets, p);
    AgreeingChainImplements(Watch(lost, w).exposed, es, sets, p);
    WatchKeepsBaseChains(lost, w);
    CalleeVerdictSuffices(s.input, Watch(lost, w).exposed, s.exposed, sets, p);
    CalleeVerdictSuffices(s.forward, Watch(lost, w).exposed, s.exposed, sets, p);
  }

  lemma AgreesIsLossy(exposed: Chain, es: seq<Entry>)
    requires Agrees(exposed, es)
    ensures LossyAgrees(exposed, es)
  {
  }

  lemma WatchKeepsBaseChains(s: Node, w: WatchEnv)
    ensures var t := Watch(s, w);
            t == s.(sets := t.sets, lastSync := t.lastSync, exposed := t.exposed, notifyFile := t.notifyFile,
              alerts := t.alerts)
  {
    hide Refresh, RefreshSucceeds, Healthy, StillBroken, RestoreAll, Missing;
    RefreshKeepsRules(s.(sets := Recreate(s.sets)), w.text, w.loads, w.now);
  }

  function AdminName(v6: bool): SetName { if v6 then Admin6 else Admin4 }

  function AdminFile(s: Node, v6: bool): Option<seq<string>> { if v6 then s.admin6 else s.admin4 }

  lemma RefreshAdminSet(s: Node, text: string, loads: bool, now: int, v6: bool)
    requires AdminName(v6) in s.sets
    ensures var name := AdminName(v6);
            var t := Refresh(s, text, loads, now);
            name in t.sets && t.sets[name] == HealSet(s.sets, name, AdminFile(s, v6))[name]
  {
    hide HealSet, RefreshOk;
    var healed4 := HealSet(s.sets, Admin4, s.admin4);
    HealTouchesOnlyEmpty(s.sets, Admin4, s.admin4);
    HealTouchesOnlyEmpty(s.sets, Admin6, s.admin6);
    HealTouchesOnlyEmpty(healed4, Admin6, s.admin6);
    if v6 {
      HealAlone(healed4, s.sets, Admin6, s.admin6);
    }
  }

  /** What healing does to a set depends on that set alone. */
  lemma HealAlone(a: Sets, b: Sets, name: SetName, file: Option<seq<string>>)
    requires name in a && name in b && a[name] == b[name]
    ensures name in HealSet(a, name, file) && name in HealSet(b, name, file)
    ensures HealSet(a, name, file)[name] == HealSet(b, name, file)[name]
  {
    hide ElementList, Join, FileWords;
  }

  lemma RepairSets(s: Node, w: WatchEnv)
    requires !Healthy(s, w.now)
    ensures Watch(s, w).sets == Refresh(s.(sets := Recreate(s.sets)), w.text, w.loads, w.now).sets
  {
    hide Refresh, RefreshSucceeds, Healthy, StillBroken, RestoreAll, Missing, Recreate;
  }

  lemma {:induction false} BlankLines(lines: seq<string>)
    requires forall i :: 0 <= i < |lines| ==> TrimSpace(lines[i]) == ""
    ensures FileWords(lines) == []
  {
    hide Trim, Fields;
    if lines != [] {
      BlankLines(lines[..|lines| - 1]);
      BlankHasNoFields(lines[|lines| - 1]);
    }
  }

  /** An empty set counts as complete only if its element file is blank. */
  lemma EmptyIsIncomplete(sets: Sets, name: SetName, lines: seq<string>)
    requires Holds(sets, name, {}) && AdminComplete(sets, name, Some(lines))
    ensures FileWords(lines) == []
  {
    hide Trim, FileWords;
    BlankLines(lines);
  }

  /**
   An admin set that disappeared or was emptied has its element file's addresses after a watchdog run if and only if the
   file holds at most one address. The same for IPv4 and IPv6.
   */
  lemma WatchRestoresAdminSet(s: Node, w: WatchEnv, v6: bool, lines: seq<string>)
    requires AdminName(v6) in s.sets ==> s.sets[AdminName(v6)] == {}
    requires AdminFile(s, v6) == Some(lines) && Elements(FileWords(lines), v6)
    ensures Holds(Watch(s, w).sets, AdminName(v6), Members(FileWords(lines))) <==> |FileWords(lines)| <= 1
  {
    hide HealSet, Elements, Watch, Refresh, FileWords, AdminComplete;
    var name := AdminName(v6);
    if Healthy(s, w.now) {
      EmptyIsIncomplete(s.sets, name, lines);
      HealthyStays(s, w);
    } else {
      var base := s.(sets := Recreate(s.sets));
      RepairSets(s, w);
      RefreshAdminSet(base, w.text, w.loads, w.now, v6);
      HealRestoresAtMostOne(base.sets, name, lines);
      HealTouchesOnlyEmpty(base.sets, name, AdminFile(s, v6));
    }
  }

  lemma HealthyStays(s: Node, w: WatchEnv)
    requires Healthy(s, w.now)
    ensures Watch(s, w) == s
  {
  }
}
