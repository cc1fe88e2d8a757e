/**
 The node as the scripts change it: one object whose chains, sets and files are updated in place.
 Every method is tied to the function of `State`, `Watchdog` or `Peering` that says what it does, so
 that the theorems about runs of those functions are theorems about runs of these methods.
 */
module Firewall {
  import opened Wrappers
  import opened Text
  import opened Cidr
  import opened Nft
  import opened Registry
  import opened Policy
  import opened State
  import opened Refreshing
  import opened Watchdog
  import opened Peering

  /** `sed -i "/^prefix/d"`. */
  method Sed(lines: seq<string>, prefix: string) returns (kept: seq<string>)
    ensures kept == DropLines(lines, prefix)
  {
    kept := [];
    var i := 0;
    while i < |lines|
      invariant 0 <= i <= |lines|
      invariant kept == DropLines(lines[..i], prefix)
    {
      assert lines[..i + 1] == lines[..i] + [lines[i]];
      TextStep(lines[..i], lines[i]);
      if !(prefix <= lines[i]) {
        kept := kept + [lines[i]];
      }
      i := i + 1;
    }
    assert lines[..i] == lines;
  }

  /** `for h in $HANDLES; do nft delete rule`: what remains of a chain once a port's handles are gone. */
  method DeleteHandles(rules: Chain, port: nat) returns (kept: Chain)
    ensures kept == RemovePort(rules, port)
  {
    kept := [];
    var i := 0;
    while i < |rules|
      invariant 0 <= i <= |rules|
      invariant kept == RemovePort(rules[..i], port)
    {
      assert rules[..i + 1] == rules[..i] + [rules[i]];
      PortStep(rules[..i], rules[i], port);
      if !ForPort(rules[i], port) {
        kept := kept + [rules[i]];
      }
      i := i + 1;
    }
    assert rules[..i] == rules;
  }

  method DeletePeerHandles(rules: Chain, port: nat, addr: string) returns (kept: Chain)
    ensures kept == DeleteHits(rules, port, addr)
  {
    kept := [];
    var i := 0;
    while i < |rules|
      invariant 0 <= i <= |rules|
      invariant kept == DeleteHits(rules[..i], port, addr)
    {
      assert rules[..i + 1] == rules[..i] + [rules[i]];
      DeleteStep(rules[..i], rules[i], port, addr);
      if !Hit(rules[i], port, addr) {
        kept := kept + [rules[i]];
      }
      i := i + 1;
    }
    assert rules[..i] == rules;
  }

  /** The watchdog's loop over the registry file. */
  method FindMissing(lines: seq<string>, exposed: Chain) returns (missing: seq<string>)
    ensures missing == Missing(lines, exposed)
  {
    hide LinePort, PortSeen;
    missing := [];
    var i := 0;
    while i < |lines|
      invariant 0 <= i <= |lines|
      invariant missing == Missing(lines[..i], exposed)
    {
      assert lines[..i + 1] == lines[..i] + [lines[i]];
      MissingStep(lines[..i], lines[i], exposed);
      var port := LinePort(lines[i]);
      if port.Some? && !PortSeen(exposed, port.value) {
        missing := missing + [port.value];
      }
      i := i + 1;
    }
    assert lines[..i] == lines;
  }

  /** The watchdog's loop that re-adds the rules of the missing ports. */
  method RestoreMissing(exposed: Chain, lines: seq<string>, missing: seq<string>) returns (chain: Chain)
    ensures chain == RestoreAll(exposed, lines, missing)
  {
    hide RestoreRules, LastLine;
    chain := exposed;
    var i := 0;
    while i < |missing|
      invariant 0 <= i <= |missing|
      invariant chain == RestoreAll(exposed, lines, missing[..i])
    {
      assert missing[..i + 1][..i] == missing[..i];
      var line := LastLine(lines, missing[i] + " ");
      if line.Some? {
        chain := chain + RestoreRules(line.value);
      }
      i := i + 1;
    }
    assert missing[..i] == missing;
  }

  /** The watchdog's loop over one element file. */
  method CheckElements(sets: Sets, name: SetName, file: Option<seq<string>>) returns (complete: bool)
    ensures complete == AdminComplete(sets, name, file)
  {
    hide ElementPresent, Trim;
    if file.None? {
      return true;
    }
    var i := 0;
    while i < |file.value|
      invariant 0 <= i <= |file.value|
      invariant forall j ::
                  0 <= j < i && TrimSpace(file.value[j]) != ""
                  ==> ElementPresent(sets, name, TrimSpace(file.value[j]))
    {
      var e := TrimSpace(file.value[i]);
      if e != "" && !ElementPresent(sets, name, e) {
        return false;
      }
      i := i + 1;
    }
    return true;
  }

  /** The pattern and the line the script builds are the entry's. */
  lemma ExposeTexts(e: Entry, proto: string, scope: string, ipsField: string)
    requires proto == TransportText(e.transport) && scope == ScopeText(e.scope) && ipsField == Join(e.ips, ',')
    ensures var key := Dec(e.port) + " " + proto + " " + scope + " ";
            key == KeyPrefix(e.port, e.transport, e.scope) && key + ipsField + " " + e.stamp == RenderLine(e)
  {
    hide Dec, Join, TransportText, ScopeText;
  }

  /** The texts a passed check was made from. */
  lemma CheckedTexts(proto: string, scope: string, ips: seq<string>)
    ensures TransportOf(proto).Some? ==> TransportText(TransportOf(proto).value) == proto
    ensures CheckScope(scope, ips).Ok? ==> ScopeText(CheckScope(scope, ips).value.0) == scope
  {
    hide Normal, FirstBad;
  }

  class NodeFirewall {
    var input: Chain
    var forward: Chain
    var exposed: Chain
    var sets: Sets
    var registry: seq<string>
    var admin4: Option<seq<string>>
    var admin6: Option<seq<string>>
    var lastSync: Option<int>
    var snapshot: Snapshot
    var committed: bool
    var armed: bool
    var loads: nat
    var notifyFile: seq<(string, int)>
    var alerts: seq<Alert>

    function Value(): Node
      reads this
    {
      Node(input, forward, exposed, sets, registry, admin4, admin6, lastSync, snapshot, committed, armed, loads,
        notifyFile, alerts)
    }

    constructor (s: Node)
      ensures Value() == s
    {
      input, forward, exposed, sets := s.input, s.forward, s.exposed, s.sets;
      registry, admin4, admin6, lastSync := s.registry, s.admin4, s.admin6, s.lastSync;
      snapshot, committed, armed, loads := s.snapshot, s.committed, s.armed, s.loads;
      notifyFile, alerts := s.notifyFile, s.alerts;
    }

    /** Self-heal of the jumps, deletion of the port's old rules, then the new ones. */
    method ApplyRules(port: nat, rules: Chain)
      modifies this
      ensures Value() == old(Value()).(input := EnsureJump(old(input)), forward := EnsureJump(old(forward)),
                                       exposed := RemovePort(old(exposed), port) + rules)
    {
      hide RemovePort, HasJump;
      if !HasJump(input) {
        input := JUMP + input;
      }
      if !HasJump(forward) {
        forward := JUMP + forward;
      }
      exposed := DeleteHandles(exposed, port);
      exposed := exposed + rules;
    }

    /** One registry line per key: the old one goes, the fresh one is appended. */
    method RecordLine(key: string, line: string)
      modifies this
      ensures Value() == old(Value()).(registry := DropLines(old(registry), key) + [line])
    {
      hide DropLines;
      registry := Sed(registry, key);
      registry := registry + [line];
    }

    /** The remote half of AllowlistExposePort: chains first, then the registry file. */
    method RunExposeScript(port: nat, proto: string, scope: string, rules: Chain, ipsField: string, stamp: string,
        ghost e: Entry) returns (ok: bool)
      requires port == e.port && proto == TransportText(e.transport) && scope == ScopeText(e.scope)
      requires rules == BlockOf(e) && ipsField == Join(e.ips, ',') && stamp == e.stamp
      modifies this
      ensures ok <==> Admin4 in old(sets)
      ensures Value() == if ok then ApplyEntry(old(Value()), e) else old(Value())
    {
      hide Dec, RemovePort, DropLines, Join, BlockOf, TransportText, ScopeText, EnsureJump, KeyPrefix, RenderLine;
      ExposeTexts(e, proto, scope, ipsField);
      if Admin4 !in sets {
        return false;
      }
      ApplyRules(port, rules);
      var key := Dec(port) + " " + proto + " " + scope + " ";
      RecordLine(key, key + ipsField + " " + stamp);
      return true;
    }

    /** Every check in the source's order; nothing changes when one fails. */
    method AllowlistExposePort(port: int, proto: string, scope: string, ips: seq<string>, stamp: string)
        returns (error: Option<ExposeError>)
      modifies this
      ensures match Expose(old(Value()), port, proto, scope, ips, stamp)
              case Ok(s) => Value() == s && error == None
              case Err(e) => Value() == old(Value()) && error == Some(e)
    {
      hide ApplyEntry, CheckScope, Join, Block;
      if port < 1 || port > 65535 {
        return Some(PortOutOfRange);
      }
      if port in PEER_PORTS {
        return Some(PeerPort);
      }
      var t := TransportOf(proto);
      if t.None? {
        return Some(BadProto);
      }
      var built := BuildExposeRules(port, t.value, scope, ips);
      if built.Err? {
        return Some(built.error);
      }
      ghost var e := CheckExpose(port, proto, scope, ips, stamp).value;
      CheckedTexts(proto, scope, ips);
      var ok := RunExposeScript(port, proto, scope, built.value.0, built.value.1, stamp, e);
      return if ok then None else Some(NotInstalled);
    }

    method AllowlistUnexposePort(port: nat)
      modifies this
      ensures Value() == Unexpose(old(Value()), port)
    {
      hide Dec, RemovePort, DropLines;
      exposed := DeleteHandles(exposed, port);
      registry := Sed(registry, Dec(port) + " ");
    }

    method ReapplyPortRegistry(clock: Clock)
      modifies this
      ensures Value() == Reapply(old(Value()), clock)
    {
      hide Expose, ReadArgs;
      var lines := registry;
      ghost var start := Value();
      var i := 0;
      while i < |lines|
        invariant 0 <= i <= |lines|
        invariant Value() == ReapplyLines(start, lines[..i], clock)
      {
        assert lines[..i + 1][..i] == lines[..i];
        var a := ReadArgs(lines[i]);
        if a.Some? {
          var _ := AllowlistExposePort(a.value.port, a.value.proto, a.value.scope, a.value.ips, clock(i));
        }
        i := i + 1;
      }
      assert lines[..i] == lines;
    }

    /** allowlist.sh: self-heal, classify, count, replace. */
    method RunUpdater(text: string, accepted: bool, now: int) returns (ok: bool)
      modifies this
      ensures Value() == Refresh(old(Value()), text, accepted, now)
      ensures ok == RefreshOk(SelfHeal(old(Value())), text, accepted)
    {
      hide HealSet, Accepted4, Accepted6;
      sets := HealSet(sets, Admin4, admin4);
      sets := HealSet(sets, Admin6, admin6);
      var v4, v6 := Classify(text);
      if |v4| + |v6| < MIN_CIDRS {
        return false;
      }
      if Allow4 !in sets || Allow6 !in sets || !accepted {
        return false;
      }
      sets := sets[Allow4 := Members(v4)][Allow6 := Members(v6)];
      lastSync := Some(now);
      return true;
    }

    method WriteSnapshotAndFiles(cfg: Config)
      modifies this
      ensures Value() == Prepare(old(Value()), cfg)
    {
      snapshot := Snapshot(input, forward, exposed, sets);
      admin4 := Some(if cfg.admin4 == [] then [""] else cfg.admin4);
      admin6 := Some(if cfg.admin6 == [] then [""] else cfg.admin6);
    }

    method FlushTable()
      modifies this
      ensures Value() == Flush(old(Value()))
    {
      input, forward, exposed := [], [], [];
    }

    method LoadConfigFile(cfg: Config)
      modifies this
      ensures Value() == LoadConfig(old(Value()), cfg)
    {
      hide RenderInput, RenderForward, ConfigSets, MergeSets;
      input, forward := input + RenderInput(cfg), forward + RenderForward(cfg);
      sets := MergeSets(sets, ConfigSets(cfg));
    }

    method LoadSnapshotFile()
      modifies this
      ensures Value() == LoadSnapshot(old(Value()))
    {
      hide MergeSets;
      input := input + snapshot.input;
      forward := forward + snapshot.forward;
      exposed := exposed + snapshot.exposed;
      sets := MergeSets(sets, snapshot.sets);
    }

    method ArmTimer()
      modifies this
      ensures Value() == Arm(old(Value()))
    {
      committed := false;
      armed := true;
    }

    method InstallAllowlist(cfg: Config, env: InstallEnv) returns (stage: InstallStage)
      modifies this
      ensures Value() == Install(old(Value()), cfg, env)
      ensures stage == StageOf(old(Value()), cfg, env)
    {
      hide Refresh, RefreshOk, SelfHeal, Reapply, Prepare, Flush, LoadConfig, LoadSnapshot, Arm, Value;
      WriteSnapshotAndFiles(cfg);
      if !env.checks {
        return Refused;
      }
      FlushTable();
      if !env.applies {
        LoadSnapshotFile();
        return Undone;
      }
      LoadConfigFile(cfg);
      ArmTimer();
      var ok := RunUpdater(env.text, env.loads, env.now);
      if !ok {
        return Unseeded;
      }
      ReapplyPortRegistry(env.clock);
      return Complete;
    }

    method CommitAllowlist()
      modifies this
      ensures Value() == Commit(old(Value()))
    {
      committed := true;
      armed := false;
    }

    /** What the transient unit runs when its time has come. */
    method RollbackTimer()
      modifies this
      ensures Value() == Fire(old(Value()))
    {
      hide LoadSnapshot;
      if !armed {
        return;
      }
      if committed {
        armed := false;
        return;
      }
      var count := loads + 1;
      LoadSnapshotFile();
      armed := false;
      loads := count;
    }

    /** The CLI's half: commit only after a complete installation and a new connection. */
    method InstallAndVerifyAllowlist(cfg: Config, env: InstallEnv, connects: bool) returns (ok: bool)
      modifies this
      ensures ok == (StageOf(old(Value()), cfg, env) == Complete && connects)
      ensures Value() == if ok then Commit(Install(old(Value()), cfg, env)) else Install(old(Value()), cfg, env)
    {
      hide Install, StageOf;
      var stage := InstallAllowlist(cfg, env);
      if stage != Complete || !connects {
        return false;
      }
      CommitAllowlist();
      return true;
    }

    method ExposePeerPortDirect(port: nat, t: Transport, raw: string) returns (ok: bool)
      modifies this
      ensures Value() == ExposePeer(old(Value()), port, t, raw)
      ensures ok <==> Meaning(raw).Some?
    {
      hide PeerAddr, Meaning, DeleteHits;
      PeerAddrIsNormal(raw);
      var addr := PeerAddr(raw);
      if addr.None? {
        return false;
      }
      input := DeletePeerHandles(input, port, addr.value);
      input := input + [PortRule(port, t, FromText(addr.value), Accept)];
      return true;
    }

    method Diverged(now: int) returns (diverged: bool, missing: seq<string>)
      ensures diverged == !Healthy(Value(), now)
      ensures missing == Missing(registry, exposed)
    {
      hide AdminComplete, Missing, AllSets, Fresh;
      var c4 := CheckElements(sets, Admin4, admin4);
      var c6 := CheckElements(sets, Admin6, admin6);
      missing := FindMissing(registry, exposed);
      diverged := !(AllSets(sets) && c4 && c6 && Fresh(lastSync, now) && missing == []);
    }

    method StillBrokenAfter(missing: seq<string>) returns (broken: bool)
      ensures broken <==> !AllSets(sets) || !AdminComplete(sets, Admin4, admin4) || !AdminComplete(sets, Admin6, admin6)
                          || exists i :: 0 <= i < |missing| && !PortSeen(exposed, missing[i])
    {
      hide AdminComplete, PortSeen, AllSets;
      var c4 := CheckElements(sets, Admin4, admin4);
      var c6 := CheckElements(sets, Admin6, admin6);
      broken := !AllSets(sets) || !c4 || !c6;
      var i := 0;
      while i < |missing|
        invariant 0 <= i <= |missing|
        invariant broken <==> !AllSets(sets) || !c4 || !c6 || exists j :: 0 <= j < i && !PortSeen(exposed, missing[j])
      {
        if !PortSeen(exposed, missing[i]) {
          broken := true;
        }
        i := i + 1;
      }
    }

    method SendNotification(kind: AlertKind, w: WatchEnv)
      modifies this
      ensures Value() == Notify(old(Value()), kind, w)
    {
      hide LastNotified;
      if w.now - LastNotified(notifyFile, w.digest) < COOLDOWN {
        return;
      }
      alerts := alerts + [Alert(kind, w.digest, w.now)];
      notifyFile := notifyFile + [(w.digest, w.now)];
    }

    method StateWatch(w: WatchEnv)
      modifies this
      ensures Value() == Watch(old(Value()), w)
    {
      hide Healthy, Refresh, RefreshOk, SelfHeal, Missing;
      hide RestoreAll, Notify, AdminComplete, AllSets, PortSeen, Recreate;
      var diverged, missing := Diverged(w.now);
      if !diverged {
        return;
      }
      sets := Recreate(sets);
      var ok := RunUpdater(w.text, w.loads, w.now);
      if ok {
        exposed := RestoreMissing(exposed, registry, missing);
        var broken := StillBrokenAfter(missing);
        SendNotification(if broken then Incomplete else Repaired, w);
      } else {
        SendNotification(RepairFailed, w);
      }
    }
  }
}
