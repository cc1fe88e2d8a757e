/**
 The operators: what an installation puts into the live sets, and that every address it was given gets in.
 */
module Operators {
  import opened Wrappers
  import opened Text
  import opened Cidr
  import opened Nft
  import opened Registry
  import opened Policy
  import opened State
  import opened Refreshing
  import opened Watchdog
  import opened Runs
  import opened Theorems
  import opened Rollback
  import opened Admins
  import opened Access

  // ---------- the sets of an installation ----------

  /** What a set held before: nothing, if it did not exist. */
  ghost predicate Had(sets: Sets, name: SetName, t: string) { name in sets && t in sets[name] }

  /** The set holds what it held before and the listed addresses, normalised; nothing else. */
  ghost predicate Grants(before: Sets, after: Sets, name: SetName, list: seq<string>) {
    && name in after
    && (forall t ::
      t in after[name] ==> Had(before, name, t) || exists x :: x in list && t == NormalizeCIDR(x))
      && (forall t :: Had(before, name, t) ==> t in after[name])
    && (forall x :: x in list ==> NormalizeCIDR(x) in after[name])
  }

  lemma ArmedSets(s: Node, cfg: Config)
    ensures var u := InstallUpToArm(s, cfg);
            && Grants(s.sets, u.sets, Admin4, cfg.admin4) && Grants(s.sets, u.sets, Admin6, cfg.admin6)
            && Grants(s.sets, u.sets, Allow4, []) && Grants(s.sets, u.sets, Allow6, [])
  {
    hide NormalizeCIDR, MergeSets, InstallUpToArm;
    ArmedHasAdmins(s, cfg);
    Merged(s.sets, ConfigSets(cfg), Admin4, cfg.admin4);
    Merged(s.sets, ConfigSets(cfg), Admin6, cfg.admin6);
    Merged(s.sets, ConfigSets(cfg), Allow4, []);
    Merged(s.sets, ConfigSets(cfg), Allow6, []);
  }

  lemma Merged(before: Sets, added: Sets, name: SetName, list: seq<string>)
    requires name in added && added[name] == Normalized(list)
    ensures Grants(before, MergeSets(before, added), name, list)
  {
    hide NormalizeCIDR;
  }

  lemma NoHealOf(sets: Sets, name: SetName, list: seq<string>)
    requires list != [] ==> name in sets && sets[name] != {}
    ensures HealSet(sets, name, Some(if list == [] then [""] else list)) == sets
  {
    hide ElementList, FileWords;
    BlankFile();
    if list == [] {
      assert Join([], ' ') == "";
    }
  }

  /** The self-heal of the seed has nothing to do: an admin set is empty only if no address was given. */
  lemma NothingToHeal(s: Node, cfg: Config)
    ensures SelfHeal(InstallUpToArm(s, cfg)) == InstallUpToArm(s, cfg)
  {
    hide RenderInput, RenderForward, NormalizeCIDR, HealSet, MergeSets;
    var u := InstallUpToArm(s, cfg);
    ArmedSets(s, cfg);
    assert cfg.admin4 != [] ==> cfg.admin4[0] in cfg.admin4;
    assert cfg.admin6 != [] ==> cfg.admin6[0] in cfg.admin6;
    NoHealOf(u.sets, Admin4, cfg.admin4);
    NoHealOf(u.sets, Admin6, cfg.admin6);
    ArmedFiles(s, cfg);
  }

  lemma ArmedFiles(s: Node, cfg: Config)
    ensures var u := InstallUpToArm(s, cfg);
            && u.admin4 == Some(if cfg.admin4 == [] then [""] else cfg.admin4)
            && u.admin6 == Some(if cfg.admin6 == [] then [""] else cfg.admin6)
  {
    hide RenderInput, RenderForward, MergeSets;
  }

  /** Four texts or more, and nft's answer. */
  ghost predicate Enough(text: string, loads: bool) { |Accepted4(text)| + |Accepted6(text)| >= 4 && loads }

  lemma {:induction false} ReapplyKeepsBase(s: Node, lines: seq<string>, clock: Clock)
    requires HasJump(s.input) && HasJump(s.forward)
    ensures var t := ReapplyLines(s, lines, clock); t.input == s.input && t.forward == s.forward && t.sets == s.sets
  {
    hide ReadArgs, CheckExpose, HasJump;
    if lines != [] {
      ReapplyKeepsBase(s, lines[..|lines| - 1], clock);
    }
  }

  lemma InstalledIs(s: Node, cfg: Config, env: InstallEnv)
    requires env.checks && env.applies
    ensures var t, armed := Install(s, cfg, env), InstallUpToArm(s, cfg);
            && t.input == RenderInput(cfg) && t.forward == RenderForward(cfg)
            && t.sets == Refresh(armed, env.text, env.loads, env.now).sets
  {
    hide RenderInput, RenderForward, MergeSets, Refresh, RefreshOk, SelfHeal, HasJump, ReapplyLines;
    var armed := InstallUpToArm(s, cfg);
    var seeded := Refresh(armed, env.text, env.loads, env.now);
    assert armed.input == RenderInput(cfg) && armed.forward == RenderForward(cfg);
    RefreshKeepsRules(armed, env.text, env.loads, env.now);
    assert RenderInput(cfg) == RenderInput(cfg) + PeerRules([]);
    RenderedHasJump(cfg, []);
    ReapplyKeepsBase(seeded, seeded.registry, env.clock);
  }

  lemma SeededSets(u: Node, text: string, loads: bool, now: int)
    requires SelfHeal(u) == u && Allow4 in u.sets && Allow6 in u.sets
    ensures Refresh(u, text, loads, now).sets ==
            if Enough(text, loads) then u.sets[Allow4 := Accepted4(text)][Allow6 := Accepted6(text)] else u.sets
  {
    hide HealSet, Accepted4, Accepted6, SelfHeal;
  }

  /**
   The live sets after every installation that passed the check and the load: the admin sets hold what they held and the
   addresses given, the provider sets what was fetched, if that was enough, or what they held.
   */
  lemma InstalledSets(s: Node, cfg: Config, env: InstallEnv)
    requires env.checks && env.applies
    ensures var t := Install(s, cfg, env);
            && Grants(s.sets, t.sets, Admin4, cfg.admin4) && Grants(s.sets, t.sets, Admin6, cfg.admin6)
            && (if Enough(env.text, env.loads)
                then Holds(t.sets, Allow4, Accepted4(env.text)) && Holds(t.sets, Allow6, Accepted6(env.text))
                else Grants(s.sets, t.sets, Allow4, []) && Grants(s.sets, t.sets, Allow6, []))
  {
    hide Install, InstallUpToArm, Refresh, Had, NormalizeCIDR, Accepted4, Accepted6, SelfHeal;
    ArmedSets(s, cfg);
    NothingToHeal(s, cfg);
    InstalledIs(s, cfg, env);
    SeededSets(InstallUpToArm(s, cfg), env.text, env.loads, env.now);
  }

  // ---------- operators get in ----------

  /**
   Whatever the node was, after an installation that passed the check and the load every source denoted by an address
   given is let in and forwarded, unless an exposure drops the packet.
   */
  lemma OperatorGetsIn(s: Node, cfg: Config, env: InstallEnv, x: string, p: Packet)
    requires env.checks && env.applies && Denotes(x, p.src)
    requires if p.src.v6 then x in cfg.admin6 else x in cfg.admin4
    requires var t := Install(s, cfg, env); !Run(t.exposed, [], t.sets, p).Dropped?
    ensures var t := Install(s, cfg, env); InputLetsIn(t, p) && ForwardLetsIn(t, p)
  {
    hide Install, Denotes, Run, LetsIn, RenderInput, RenderForward, Had, NormalizeCIDR, Meaning, Accepted4, Accepted6;
    var t := Install(s, cfg, env);
    InstalledSets(s, cfg, env);
    InstalledIs(s, cfg, env);
    NormalizeMeaning(x);
    DenotesMeans(x, p.src);
    DenotesMeans(NormalizeCIDR(x), p.src);
    assert RenderInput(cfg) + PeerRules([]) == RenderInput(cfg);
    ElementGetsIn(cfg, [], t.exposed, t.sets, if p.src.v6 then Admin6 else Admin4, NormalizeCIDR(x), p);
  }

  /**
   From the command line to the packet: when the lists are what the comma-separated text was read as, every source
   denoted by a part of that text is let in and forwarded after the installation, unless an exposure drops the packet.
   */
  lemma TypedOperatorGetsIn(raw: string, part: string, s: Node, cfg: Config, env: InstallEnv, p: Packet)
    requires ReadsAll(Split(raw, ','), cfg.admin4, false) && ReadsAll(Split(raw, ','), cfg.admin6, true)
    requires part in Split(raw, ',') && Denotes(part, p.src) && env.checks && env.applies
    requires var t := Install(s, cfg, env); !Run(t.exposed, [], t.sets, p).Dropped?
    ensures var t := Install(s, cfg, env); InputLetsIn(t, p) && ForwardLetsIn(t, p)
  {
    hide Install, Denotes, Run, LetsIn, NormalizeCIDR, Meaning, Split, InputLetsIn, ForwardLetsIn;
    DenotesMeans(part, p.src);
    NormalizeMeaning(part);
    OperatorGetsIn(s, cfg, env, NormalizeCIDR(part), p);
  }

  /** How an installation ends, and that one which ends early leaves chains, sets, registry, flag and timer alone. */
  lemma StagesMean(s: Node, cfg: Config, env: InstallEnv)
    ensures StageOf(s, cfg, env).Refused? <==> !env.checks
    ensures StageOf(s, cfg, env).Undone? <==> env.checks && !env.applies
    ensures StageOf(s, cfg, env).Complete? <==> env.checks && env.applies && Enough(env.text, env.loads)
    ensures var t := Install(s, cfg, env);
            if env.checks && env.applies then t.armed && !t.committed
            else t == s.(snapshot := t.snapshot, admin4 := t.admin4, admin6 := t.admin6)
  {
    hide Refresh, ReapplyLines, RenderInput, RenderForward, MergeSets, Accepted4, Accepted6, SelfHeal;
    var armed := InstallUpToArm(s, cfg);
    ArmedSets(s, cfg);
    NothingToHeal(s, cfg);
    UndoneIsNeutral(s, cfg);
    var seeded := Refresh(armed, env.text, env.loads, env.now);
    RefreshKeepsRules(armed, env.text, env.loads, env.now);
    ReapplyKeepsFlags(seeded, seeded.registry, env.clock);
  }

  lemma {:induction false} ReapplyKeepsFlags(s: Node, lines: seq<string>, clock: Clock)
    ensures var t := ReapplyLines(s, lines, clock); t.armed == s.armed && t.committed == s.committed
  {
    hide ReadArgs, CheckExpose, RemovePort, BlockOf;
    if lines != [] {
      ReapplyKeepsFlags(s, lines[..|lines| - 1], clock);
    }
  }
}
