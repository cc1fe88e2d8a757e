/**
 The commit/rollback protocol of an installation: what the armed timer does in every interleaving
 with seeding, reapplying, exposures, the watchdog and the commit.
 */
module Rollback {
  import opened Wrappers
  import opened Text
  import opened Cidr
  import opened Nft
  import opened Registry
  import opened Policy
  import opened State
  import opened Refreshing
  import opened Watchdog
  import opened Peering
  import opened Runs
  import opened Theorems

  // ---------- chains under an additive load ----------

  /** A matching accept rule means a flat chain decides the packet. */
  lemma {:induction false} MatchedIsDecided(rules: Chain, r: Rule, sets: Sets, p: Packet)
    requires Flat(rules) && r in rules && r.action == Accept && Matches(r, sets, p)
    ensures !Run(rules, [], sets, p).NoMatch?
  {
    hide Matches;
    if rules[0] != r {
      assert rules[0] in rules && r in rules[1..];
      assert forall x :: x in rules[1..] ==> x in rules;
      MatchedIsDecided(rules[1..], r, sets, p);
    }
  }

  lemma {:induction false} JumpReached(rules: Chain, r: Rule, callee: Chain, sets: Sets, p: Packet)
    requires NoDrop(rules) && r in rules && r.action == JumpExposed && Matches(r, sets, p)
    requires Run(callee, [], sets, p).Accepted?
    ensures LetsIn(rules, callee, sets, p)
  {
    hide Matches;
    if rules[0] != r {
      assert r in rules[1..];
      JumpReached(rules[1..], r, callee, sets, p);
    }
  }

  lemma JoinedFlat(a: Chain, b: Chain)
    requires Flat(a) && Flat(b)
    ensures Flat(a + b)
  {
  }

  /** What the snapshot's exposed chain accepted, the joined chain still decides. */
  lemma ExposedAcceptDecided(live: Chain, snap: Chain, a: Sets, b: Sets, p: Packet)
    requires Flat(live) && Flat(snap) && Run(snap, [], b, p).Accepted?
    ensures !Run(live + snap, [], MergeSets(a, b), p).NoMatch?
  {
    hide Matches, Run, MergeSets;
    AcceptedBySomething(snap, [], b, p);
    var r :| r in snap && r.action == Accept && Matches(r, b, p);
    MatchesGrows(r, b, a, p);
    JoinedFlat(live, snap);
    MatchedIsDecided(live + snap, r, MergeSets(a, b), p);
  }

  /** What the snapshot let in, the joined table lets in, unless the joined exposed chain drops it. */
  lemma JoinedLetsIn(liveIn: Chain, liveEx: Chain, a: Sets, snapIn: Chain, snapEx: Chain, b: Sets, p: Packet)
    requires NoDrop(liveIn) && NoDrop(snapIn) && Flat(liveEx) && Flat(snapEx)
    requires LetsIn(snapIn, snapEx, b, p)
    ensures var m := MergeSets(a, b);
            LetsIn(liveIn + snapIn, liveEx + snapEx, m, p) || Run(liveEx + snapEx, [], m, p).Dropped?
  {
    hide Matches, Run, MergeSets;
    var m := MergeSets(a, b);
    var ex := liveEx + snapEx;
    if !Run(ex, [], m, p).Dropped? {
      AcceptedBySomething(snapIn, snapEx, b, p);
      if r :| r in snapIn && r.action == Accept && Matches(r, b, p) {
        MatchesGrows(r, b, a, p);
        AcceptReached(liveIn + snapIn, r, ex, m, p);
      } else {
        var r :| r in snapIn && r.action == JumpExposed && Matches(r, b, p);
        ExposedAcceptDecided(liveEx, snapEx, a, b, p);
        MatchesGrows(r, b, a, p);
        JumpReached(liveIn + snapIn, r, ex, m, p);
      }
    }
  }

  /** Behind a rendered head, only loopback and established traffic escapes a drop of the exposed chain. */
  lemma HeadEscapes(tail: Chain, ex: Chain, sets: Sets, p: Packet)
    ensures (p.lo || p.established) ==> LetsIn(INPUT_HEAD + JUMP + tail, ex, sets, p)
    ensures !(p.lo || p.established) && Run(ex, [], sets, p).Dropped? ==> !LetsIn(INPUT_HEAD + JUMP + tail, ex, sets, p)
  {
    RunConcat(INPUT_HEAD + JUMP, tail, ex, sets, p);
    RunConcat(INPUT_HEAD, JUMP, ex, sets, p);
    HeadMeaning(sets, p);
    AcceptsOnly(INPUT_HEAD, ex, sets, p);
    assert JUMP[1..] == [];
    assert Matches(JUMP[0], sets, p);
  }

  const FORWARD_HEAD: Chain := [Plain(Established, Accept)] + JUMP

  lemma ForwardTails(cfg: Config)
    ensures RenderForward(cfg) == FORWARD_HEAD + (WebRules(cfg) + LAN_RULES + SET_RULES)
  {
  }

  /** In the forward chain, only established traffic escapes one. */
  lemma ForwardEscapes(tail: Chain, ex: Chain, sets: Sets, p: Packet)
    ensures p.established ==> LetsIn(FORWARD_HEAD + tail, ex, sets, p)
    ensures !p.established && Run(ex, [], sets, p).Dropped? ==> !LetsIn(FORWARD_HEAD + tail, ex, sets, p)
  {
    var first := [Plain(Established, Accept)];
    RunConcat(FORWARD_HEAD, tail, ex, sets, p);
    RunConcat(first, JUMP, ex, sets, p);
    EstablishedMatches(sets, p);
    assert first[1..] == [] && JUMP[1..] == [];
    assert Matches(JUMP[0], sets, p);
  }

  // ---------- the protocol ----------

  /**
   Any step but a further installation: the seed, the reapply, exposures, the watchdog, the commit's two halves, the
   timer.
   */
  ghost predicate NoInstall(ops: seq<Op>) { forall op :: op in ops ==> !op.DoInstall? }

  /** Steps that neither commit nor let the timer run. */
  ghost predicate Undecided(ops: seq<Op>) {
    forall op :: op in ops ==> !op.DoInstall? && !op.DoTouch? && !op.DoStopTimer? && !op.DoFire?
  }

  lemma {:induction false} ReapplyProtocol(s: Node, lines: seq<string>, clock: Clock)
    ensures var t := ReapplyLines(s, lines, clock);
            t.armed == s.armed && t.committed == s.committed && t.loads == s.loads && t.snapshot == s.snapshot
  {
    hide ReadArgs, CheckExpose, RemovePort, BlockOf;
    if lines != [] {
      ReapplyProtocol(s, lines[..|lines| - 1], clock);
    }
  }

  ghost predicate SameProtocol(s: Node, t: Node) {
    t.armed == s.armed && t.committed == s.committed && t.loads == s.loads && t.snapshot == s.snapshot
  }

  lemma StepProtocol(s: Node, op: Op)
    requires !op.DoInstall? && !op.DoTouch? && !op.DoStopTimer? && !op.DoFire?
    ensures SameProtocol(s, Step(s, op))
  {
    hide CheckExpose, ReapplyLines, Refresh, Watch, PeerAddr, Lose, DeleteHits, RenderLine, KeyPrefix, BlockOf;
    match op {
      case DoReapply(clock) => ReapplyProtocol(s, s.registry, clock);
      case DoRefresh(text, loads, now) => RefreshKeepsRules(s, text, loads, now);
      case DoWatch(w) => WatchKeepsBaseChains(s, w);
      case _ =>
    }
  }

  lemma {:induction false} UndecidedProtocol(s: Node, ops: seq<Op>)
    requires Undecided(ops)
    ensures SameProtocol(s, After(s, ops))
  {
    hide Step;
    if ops != [] {
      var n := |ops| - 1;
      assert ops[n] in ops && forall op :: op in ops[..n] ==> op in ops;
      UndecidedProtocol(s, ops[..n]);
      StepProtocol(After(s, ops[..n]), ops[n]);
    }
  }

  /** Bounds on the timer's loads over any run without a further installation. */
  lemma {:induction false} LoadsBounded(s: Node, ops: seq<Op>)
    requires NoInstall(ops)
    ensures var t := After(s, ops);
            && t.snapshot == s.snapshot
            && (s.committed ==> t.committed) && (t.armed ==> s.armed)
            && t.loads <= s.loads + 1
            && (t.armed || s.committed || !s.armed ==> t.loads == s.loads)
  {
    hide Step;
    if ops != [] {
      var n := |ops| - 1;
      assert ops[n] in ops && forall op :: op in ops[..n] ==> op in ops;
      var t := After(s, ops[..n]);
      LoadsBounded(s, ops[..n]);
      StepTimer(t, ops[n]);
    }
  }

  lemma StepTimer(s: Node, op: Op)
    requires !op.DoInstall?
    ensures var t := Step(s, op);
            && t.snapshot == s.snapshot && (s.committed ==> t.committed) && (t.armed ==> s.armed)
            && (t.loads == s.loads || (op.DoFire? && s.armed && !s.committed && !t.armed && t.loads == s.loads + 1))
  {
    hide Step;
    match op {
      case DoTouch => StepTouch(s);
      case DoStopTimer => StepTouch(s);
      case DoFire => StepTouch(s);
      case _ => StepProtocol(s, op);
    }
  }

  lemma StepTouch(s: Node)
    ensures Step(s, DoTouch) == Touch(s) && Step(s, DoStopTimer) == StopTimer(s) && Step(s, DoFire) == Fire(s)
    ensures Fire(s).snapshot == s.snapshot && Fire(s).committed == s.committed && !Fire(s).armed
    ensures Fire(s).loads == if s.armed && !s.committed then s.loads + 1 else s.loads
  {
    hide MergeSets;
  }

  /** From the arm step on, whatever happens, the snapshot is loaded at most once. */
  lemma LoadedAtMostOnce(s: Node, cfg: Config, ops: seq<Op>)
    requires NoInstall(ops)
    ensures After(InstallUpToArm(s, cfg), ops).loads <= s.loads + 1
  {
    hide After, RenderInput, RenderForward, MergeSets;
    LoadsBounded(InstallUpToArm(s, cfg), ops);
  }

  /**
   A commit that arrives before the timer makes the timer a no-op, even between touching the flag and stopping the unit.
   */
  lemma CommitPreventsLoad(s: Node, cfg: Config, before: seq<Op>, ops: seq<Op>)
    requires Undecided(before) && NoInstall(ops)
    ensures var touched := Touch(After(InstallUpToArm(s, cfg), before)); After(touched, ops).loads == s.loads
  {
    hide After, RenderInput, RenderForward, MergeSets;
    var armed := InstallUpToArm(s, cfg);
    UndecidedProtocol(armed, before);
    LoadsBounded(Touch(After(armed, before)), ops);
  }

  /** A whole commit, whenever it comes, stops the timer for good. */
  lemma CommitSettles(s: Node, ops: seq<Op>)
    requires NoInstall(ops)
    ensures var t := After(Commit(s), ops); t.loads == s.loads && !t.armed && t.committed
  {
    hide After;
    LoadsBounded(Commit(s), ops);
  }

  /** Without a commit the timer loads the snapshot, whether or not an earlier installation left its flag behind. */
  lemma UncommittedTimerLoads(s: Node, cfg: Config, ops: seq<Op>)
    requires Undecided(ops)
    ensures var t := After(InstallUpToArm(s, cfg), ops);
            && t.armed && !t.committed && t.snapshot == Snap(s)
            && Fire(t).loads == s.loads + 1
  {
    hide After, RenderInput, RenderForward, MergeSets;
    UndecidedProtocol(InstallUpToArm(s, cfg), ops);
    StepTouch(After(InstallUpToArm(s, cfg), ops));
  }

  lemma SafeFlat(c: Chain)
    requires AllExposable(c)
    ensures Flat(c)
  {
  }

  lemma {:induction false} BaseStays(v: View, s: Node, ops: seq<Op>)
    requires v.base.Some? && Undecided(ops)
    ensures ViewAfter(v, s, ops).base.Some?
  {
    hide CheckExpose, PeerAddr, Displace, Record, Restamp, DropPort, Healthy, RefreshSucceeds, Step;
    if ops != [] {
      var n := |ops| - 1;
      assert ops[n] in ops && forall op :: op in ops[..n] ==> op in ops;
      BaseStays(v, s, ops[..n]);
    }
  }

  lemma ArmedInvariant(v: View, s: Node, cfg: Config)
    requires Invariant(v, s)
    ensures Invariant(View(v.es, Lossy, v.status, Some((cfg, []))), InstallUpToArm(s, cfg))
  {
    hide EntriesFit, ChainFits, BaseFits, Safe, RenderInput, RenderForward, MergeSets;
    ArmedFits(v, s, cfg);
  }

  lemma RenderedInput(v: View, s: Node)
    requires Invariant(v, s) && v.base.Some?
    ensures INPUT_HEAD + JUMP <= s.input
  {
    hide EntriesFit, ChainFits, Safe;
    var (cfg, peers) := v.base.value;
    assert s.input == INPUT_HEAD + JUMP + (InputTail(cfg) + PeerRules(peers));
  }

  lemma RenderedForward(v: View, s: Node)
    requires Invariant(v, s) && v.base.Some?
    ensures FORWARD_HEAD <= s.forward
  {
    hide EntriesFit, ChainFits, Safe;
    ForwardTails(v.base.value.0);
  }

  /** The states between which the rollback stands: before the installation, and when the timer fires. */
  ghost function BeforeFire(s: Node, cfg: Config, ops: seq<Op>): Node { After(InstallUpToArm(s, cfg), ops) }

  ghost function AtFire(v: View, s: Node, cfg: Config, ops: seq<Op>): View {
    ViewAfter(View(v.es, Lossy, v.status, Some((cfg, []))), InstallUpToArm(s, cfg), ops)
  }

  lemma WindowKeeps(v: View, s: Node, cfg: Config, ops: seq<Op>)
    requires Invariant(v, s) && OpsOk(ops) && Undecided(ops)
    ensures var b := BeforeFire(s, cfg, ops);
            && Invariant(AtFire(v, s, cfg, ops), b)
            && b.armed && !b.committed && b.snapshot == Snap(s)
            && INPUT_HEAD + JUMP <= b.input && FORWARD_HEAD <= b.forward
  {
    hide Invariant, InstallUpToArm, After, ViewAfter;
    var v1 := View(v.es, Lossy, v.status, Some((cfg, [])));
    ArmedInvariant(v, s, cfg);
    RunKeeps(v1, InstallUpToArm(s, cfg), ops);
    BaseStays(v1, InstallUpToArm(s, cfg), ops);
    UncommittedTimerLoads(s, cfg, ops);
    RenderedInput(AtFire(v, s, cfg, ops), BeforeFire(s, cfg, ops));
    RenderedForward(AtFire(v, s, cfg, ops), BeforeFire(s, cfg, ops));
  }

  lemma FiredTable(b: Node, s: Node)
    requires b.armed && !b.committed && b.snapshot == Snap(s)
    ensures var t := Fire(b);
            && t.input == b.input + s.input && t.forward == b.forward + s.forward && t.exposed == b.exposed + s.exposed
            && t.sets == MergeSets(b.sets, s.sets)
  {
    hide MergeSets;
  }

  /**
   Whatever the exposed chain was: a packet let in, or forwarded, before the installation is let in, or forwarded, after
   an uncommitted timer if and only if it is loopback (input) or established, or the exposed chain does not drop it.
   */
  lemma RollbackUnlessDropped(v: View, s: Node, cfg: Config, ops: seq<Op>, p: Packet)
    requires Invariant(v, s) && OpsOk(ops) && Undecided(ops)
    ensures var t := Fire(BeforeFire(s, cfg, ops));
            var dropped := Run(t.exposed, [], t.sets, p).Dropped?;
            && (InputLetsIn(s, p) ==> (InputLetsIn(t, p) <==> p.lo || p.established || !dropped))
            && (ForwardLetsIn(s, p) ==> (ForwardLetsIn(t, p) <==> p.established || !dropped))
            && (dropped ==> DropMatches(t.exposed, t.sets, p))
  {
    hide BeforeFire, Run, LetsIn, DropMatches, MergeSets, Exposable, Invariant, Fire;
    WindowKeeps(v, s, cfg, ops);
    var b := BeforeFire(s, cfg, ops);
    InvariantSafe(v, s);
    InvariantSafe(AtFire(v, s, cfg, ops), b);
    FiredTable(b, s);
    SafeFlat(b.exposed);
    SafeFlat(s.exposed);
    var ex, m := b.exposed + s.exposed, MergeSets(b.sets, s.sets);
    JoinedChains(b, s, p);
    if InputLetsIn(s, p) {
      InputVerdict(b.input, s.input, ex, m, p);
    }
    if ForwardLetsIn(s, p) {
      ForwardVerdict(b.forward, s.forward, ex, m, p);
    }
    if Run(ex, [], m, p).Dropped? {
      DroppedByMatch(ex, m, p);
    }
  }

  lemma JoinedChains(b: Node, s: Node, p: Packet)
    requires Safe(b) && Safe(s) && Flat(b.exposed) && Flat(s.exposed)
    ensures var ex, m := b.exposed + s.exposed, MergeSets(b.sets, s.sets);
            && (LetsIn(s.input, s.exposed, s.sets, p)
              ==> LetsIn(b.input + s.input, ex, m, p) || Run(ex, [], m, p).Dropped?)
            && (LetsIn(s.forward, s.exposed, s.sets, p)
              ==> LetsIn(b.forward + s.forward, ex, m, p) || Run(ex, [], m, p).Dropped?)
  {
    hide Run, LetsIn, MergeSets, Exposable, Flat;
    if LetsIn(s.input, s.exposed, s.sets, p) {
      JoinedLetsIn(b.input, b.exposed, b.sets, s.input, s.exposed, s.sets, p);
    }
    if LetsIn(s.forward, s.exposed, s.sets, p) {
      JoinedLetsIn(b.forward, b.exposed, b.sets, s.forward, s.exposed, s.sets, p);
    }
  }

  lemma InputVerdict(live: Chain, snap: Chain, ex: Chain, sets: Sets, p: Packet)
    requires INPUT_HEAD + JUMP <= live
    requires LetsIn(live + snap, ex, sets, p) || Run(ex, [], sets, p).Dropped?
    ensures LetsIn(live + snap, ex, sets, p) <==> p.lo || p.established || !Run(ex, [], sets, p).Dropped?
  {
    hide Run, LetsIn;
    var head := INPUT_HEAD + JUMP;
    var tail := live[|head|..] + snap;
    assert live + snap == head + tail;
    HeadEscapes(tail, ex, sets, p);
  }

  lemma ForwardVerdict(live: Chain, snap: Chain, ex: Chain, sets: Sets, p: Packet)
    requires FORWARD_HEAD <= live
    requires LetsIn(live + snap, ex, sets, p) || Run(ex, [], sets, p).Dropped?
    ensures LetsIn(live + snap, ex, sets, p) <==> p.established || !Run(ex, [], sets, p).Dropped?
  {
    hide Run, LetsIn;
    var tail := live[|FORWARD_HEAD|..] + snap;
    assert live + snap == FORWARD_HEAD + tail;
    ForwardEscapes(tail, ex, sets, p);
  }

  // ---------- what the joined exposed chain says ----------

  /** In a chain that may have lost ports, the last entry decides where the packet's port has rules left. */
  ghost function RulesLeftSay(exposed: Chain, es: seq<Entry>, sets: Sets, p: Packet): Verdict {
    if PortRules(exposed, p.dport) == [] then NoMatch else ExposedSays(es, sets, p)
  }

  lemma LossyChainImplements(exposed: Chain, es: seq<Entry>, sets: Sets, p: Packet)
    requires LossyAgrees(exposed, es)
    ensures Run(exposed, [], sets, p) == RulesLeftSay(exposed, es, sets, p)
  {
    hide Run, PortRules, Wanted, Copies, ExposedSays;
    OnlyOwnPort(exposed, sets, p);
    if PortRules(exposed, p.dport) == [] {
      EmptyRuns(sets, p);
    } else {
      CopiesSay(PortRules(exposed, p.dport), es, sets, p);
    }
  }

  /** Nothing in the window makes the live exposed chain unaccountable. */
  lemma {:induction false} StatusKnown(v: View, s: Node, ops: seq<Op>)
    requires v.status != Unknown && Undecided(ops)
    ensures ViewAfter(v, s, ops).status != Unknown
  {
    hide CheckExpose, PeerAddr, Displace, Record, Restamp, DropPort, Healthy, RefreshSucceeds, Step;
    if ops != [] {
      var n := |ops| - 1;
      assert ops[n] in ops && forall op :: op in ops[..n] ==> op in ops;
      StatusKnown(v, s, ops[..n]);
    }
  }

  ghost predicate Accountable(v: View) { v.status == Exact || v.status == Agreeing }

  /**
   The exact verdict of the exposed chain after an uncommitted timer: what the present entries say, as far as their port
   has rules at that moment; else what the entries of before the installation say.
   */
  lemma RollbackSays(v: View, s: Node, cfg: Config, ops: seq<Op>, p: Packet)
    requires Invariant(v, s) && OpsOk(ops) && Undecided(ops) && Accountable(v)
    ensures var b := BeforeFire(s, cfg, ops);
            var t := Fire(b);
            var live := RulesLeftSay(b.exposed, AtFire(v, s, cfg, ops).es, t.sets, p);
            Run(t.exposed, [], t.sets, p) == if live.NoMatch? then ExposedSays(v.es, t.sets, p) else live
  {
    hide Run, BeforeFire, Fire, RulesLeftSay, ExposedSays, LossyAgrees, Agrees, MergeSets;
    var b, w := BeforeFire(s, cfg, ops), AtFire(v, s, cfg, ops);
    WindowKeeps(v, s, cfg, ops);
    FiredTable(b, s);
    var m := MergeSets(b.sets, s.sets);
    LiveIsLossy(v, s, cfg, ops);
    AccountableAgrees(v, s);
    LossyChainImplements(b.exposed, w.es, m, p);
    AgreeingChainImplements(s.exposed, v.es, m, p);
    RunConcat(b.exposed, s.exposed, [], m, p);
  }

  lemma AccountableAgrees(v: View, s: Node)
    requires Invariant(v, s) && Accountable(v)
    ensures Agrees(s.exposed, v.es)
  {
    hide Agrees, EntriesFit, BaseFits, Safe, ChainFits;
    FitsAgrees(v.status, s.exposed, v.es);
  }

  lemma LiveIsLossy(v: View, s: Node, cfg: Config, ops: seq<Op>)
    requires Invariant(v, s) && OpsOk(ops) && Undecided(ops)
    ensures LossyAgrees(BeforeFire(s, cfg, ops).exposed, AtFire(v, s, cfg, ops).es)
  {
    hide LossyAgrees, EntriesFit, BaseFits, Safe, ChainFits, BeforeFire, ViewAfter;
    var w := AtFire(v, s, cfg, ops);
    WindowKeeps(v, s, cfg, ops);
    StatusKnown(View(v.es, Lossy, v.status, Some((cfg, []))), InstallUpToArm(s, cfg), ops);
    FitsLossy(w.status, BeforeFire(s, cfg, ops).exposed, w.es);
  }

  // ---------- growing sets ----------

  lemma HoldsGrows(a: Sets, b: Sets, name: SetName, addr: Addr)
    requires SetHolds(a, name, addr)
    ensures SetHolds(MergeSets(b, a), name, addr)
  {
    var t :| t in a[name] && Denotes(t, addr);
    assert t in MergeSets(b, a)[name];
  }

  /** More elements never turn an exposure against a packet. */
  lemma SaysGrows(es: seq<Entry>, a: Sets, b: Sets, p: Packet)
    requires !ExposedSays(es, a, p).Dropped?
    ensures !ExposedSays(es, MergeSets(b, a), p).Dropped?
  {
    hide SetHolds, MergeSets, Denotes;
    if SetHolds(a, Admin4, p.src) {
      HoldsGrows(a, b, Admin4, p.src);
    }
    if SetHolds(a, Admin6, p.src) {
      HoldsGrows(a, b, Admin6, p.src);
    }
  }

  // ---------- who gets back in ----------

  /**
   A packet that was let in, or forwarded, before the installation, and that no exposure dropped, is let in, or
   forwarded, after an uncommitted timer if and only if it is loopback (input) or established, or the registry as it
   stands when the timer fires does not drop it on a port that has rules then.
   */
  lemma RollbackRestoresAccess(v: View, s: Node, cfg: Config, ops: seq<Op>, p: Packet)
    requires Invariant(v, s) && OpsOk(ops) && Undecided(ops) && Accountable(v)
    requires !ExposedSays(v.es, s.sets, p).Dropped?
    ensures var b := BeforeFire(s, cfg, ops);
            var t := Fire(b);
            var dropped := RulesLeftSay(b.exposed, AtFire(v, s, cfg, ops).es, t.sets, p).Dropped?;
            && (InputLetsIn(s, p) ==> (InputLetsIn(t, p) <==> p.lo || p.established || !dropped))
            && (ForwardLetsIn(s, p) ==> (ForwardLetsIn(t, p) <==> p.established || !dropped))
  {
    hide Run, BeforeFire, Fire, RulesLeftSay, ExposedSays, MergeSets, LetsIn, Invariant, DropMatches, AtFire;
    WindowKeeps(v, s, cfg, ops);
    FiredTable(BeforeFire(s, cfg, ops), s);
    RollbackUnlessDropped(v, s, cfg, ops, p);
    RollbackSays(v, s, cfg, ops, p);
    SaysGrows(v.es, s.sets, BeforeFire(s, cfg, ops).sets, p);
  }

  // ---------- every packet ----------

  /** A chain without drops drops only through its jump. */
  lemma {:induction false} DroppedThroughJump(rules: Chain, callee: Chain, sets: Sets, p: Packet)
    requires NoDrop(rules) && Run(rules, callee, sets, p).Dropped?
    ensures Run(callee, [], sets, p).Dropped?
  {
    hide Matches;
    var inner := Run(callee, [], sets, p);
    if !Matches(rules[0], sets, p) || rules[0].action == LogOnly || (rules[0].action == JumpExposed && inner.NoMatch?) {
      DroppedThroughJump(rules[1..], callee, sets, p);
    }
  }

  /** Of two such chains, loaded one after the other, either may let a packet in that the jump does not drop. */
  lemma JoinedIsUnion(live: Chain, snap: Chain, ex: Chain, sets: Sets, p: Packet)
    requires NoDrop(live)
    ensures LetsIn(live + snap, ex, sets, p) ==> LetsIn(live, ex, sets, p) || LetsIn(snap, ex, sets, p)
    ensures LetsIn(live, ex, sets, p) ==> LetsIn(live + snap, ex, sets, p)
    ensures LetsIn(snap, ex, sets, p) && !Run(ex, [], sets, p).Dropped? ==> LetsIn(live + snap, ex, sets, p)
  {
    hide Run, NoDrop;
    RunConcat(live, snap, ex, sets, p);
    if Run(live, ex, sets, p).Dropped? {
      DroppedThroughJump(live, ex, sets, p);
    }
  }

  ghost function SaysAfterRollback(v: View, s: Node, cfg: Config, ops: seq<Op>, p: Packet): Verdict {
    var b := BeforeFire(s, cfg, ops);
    var m := MergeSets(b.sets, s.sets);
    var live := RulesLeftSay(b.exposed, AtFire(v, s, cfg, ops).es, m, p);
    if live.NoMatch? then ExposedSays(v.es, m, p) else live
  }

  /**
   The policy after an uncommitted timer, for every packet: whatever either of the two configurations, each with its
   peers, allows over the joined exposed chain and the joined sets.
   */
  lemma RollbackIsUnion(v: View, s: Node, cfg: Config, ops: seq<Op>, p: Packet)
    requires Invariant(v, s) && OpsOk(ops) && Undecided(ops) && Accountable(v) && v.base.Some?
    ensures AtFire(v, s, cfg, ops).base.Some?
    ensures var t := Fire(BeforeFire(s, cfg, ops));
            var says := SaysAfterRollback(v, s, cfg, ops, p);
            var (was, peers) := v.base.value;
            var (now, newer) := AtFire(v, s, cfg, ops).base.value;
            && (InputLetsIn(t, p) <==>
                InputAllows(now, newer, says, t.sets, p) || InputAllows(was, peers, says, t.sets, p))
            && (ForwardLetsIn(t, p) <==> ForwardAllows(now, says, t.sets, p) || ForwardAllows(was, says, t.sets, p))
  {
    hide Run, BeforeFire, Fire, RulesLeftSay, ExposedSays, MergeSets, LetsIn, Invariant, AtFire, InputAllows;
    hide ForwardAllows, NoDrop;
    var b, w := BeforeFire(s, cfg, ops), AtFire(v, s, cfg, ops);
    WindowKeeps(v, s, cfg, ops);
    BaseAtFire(v, s, cfg, ops);
    FiredTable(b, s);
    RollbackSays(v, s, cfg, ops, p);
    var m, ex := MergeSets(b.sets, s.sets), b.exposed + s.exposed;
    BaseMeans(v, s, ex, m, p);
    BaseMeans(w, b, ex, m, p);
    SafeForward(w, b);
    JoinedIsUnion(b.input, s.input, ex, m, p);
    JoinedIsUnion(b.forward, s.forward, ex, m, p);
    if Run(ex, [], m, p).Dropped? {
      DroppedAllowsAlike(v.base.value.0, v.base.value.1, w.base.value.0, w.base.value.1, Dropped, m, p);
    }
  }

  lemma BaseAtFire(v: View, s: Node, cfg: Config, ops: seq<Op>)
    requires Undecided(ops)
    ensures AtFire(v, s, cfg, ops).base.Some?
  {
    hide InstallUpToArm;
    BaseStays(View(v.es, Lossy, v.status, Some((cfg, []))), InstallUpToArm(s, cfg), ops);
  }

  lemma SafeForward(v: View, s: Node)
    requires Invariant(v, s)
    ensures NoDrop(s.input) && NoDrop(s.forward)
  {
    hide EntriesFit, ChainFits, BaseFits, Exposable;
  }

  lemma BaseMeans(v: View, s: Node, ex: Chain, sets: Sets, p: Packet)
    requires Invariant(v, s) && v.base.Some?
    ensures var (cfg, peers) := v.base.value;
            && (LetsIn(s.input, ex, sets, p) <==> InputAllows(cfg, peers, Run(ex, [], sets, p), sets, p))
            && (LetsIn(s.forward, ex, sets, p) <==> ForwardAllows(cfg, Run(ex, [], sets, p), sets, p))
  {
    hide EntriesFit, ChainFits, Safe, RenderInput, RenderForward, PeerRules, LetsIn, InputAllows, ForwardAllows, Run;
    InputImplementsPolicy(v.base.value.0, v.base.value.1, ex, sets, p);
    ForwardImplementsPolicy(v.base.value.0, ex, sets, p);
  }

  lemma DroppedAllowsAlike(a: Config, ps: seq<Peer>, b: Config, qs: seq<Peer>, says: Verdict, sets: Sets, p: Packet)
    requires says.Dropped?
    ensures InputAllows(a, ps, says, sets, p) == InputAllows(b, qs, says, sets, p)
    ensures ForwardAllows(a, says, sets, p) == ForwardAllows(b, says, sets, p)
  {
  }

  /** No exposure of the port; other ports may be exposed and any port unexposed. */
  ghost predicate NotExposed(ops: seq<Op>, port: nat) { forall op :: op in ops && op.DoExpose? ==> op.port != port }

  lemma WantedStep(v: View, s: Node, op: Op, q: nat)
    requires op.DoExpose? ==> op.port != q
    requires !op.DoInstall?
    ensures var w := ViewStep(v, s, op); Wanted(w.es, q) == Wanted(v.es, q) || Wanted(w.es, q) == []
  {
    hide PeerAddr, Displace, Record, Restamp, DropPort, Healthy, RefreshSucceeds, LastFor, BlockOf, CheckScope;
    match op {
      case DoExpose(port, proto, scope, ips, stamp) =>
        if CheckExpose(port, proto, scope, ips, stamp).Ok? {
          LastRecord(v.es, CheckExpose(port, proto, scope, ips, stamp).value, q);
        }
      case DoUnexpose(port) => LastDropPort(v.es, port, q);
      case DoReapply(clock) => SameWanted(v.es, clock, q);
      case _ =>
    }
  }

  /** A port that is not exposed in the window keeps its block or loses its lines. */
  lemma {:induction false} WantedStays(v: View, s: Node, ops: seq<Op>, q: nat)
    requires Undecided(ops) && NotExposed(ops, q)
    ensures Wanted(ViewAfter(v, s, ops).es, q) == Wanted(v.es, q) || Wanted(ViewAfter(v, s, ops).es, q) == []
  {
    hide Wanted, Step, ViewStep;
    if ops != [] {
      var n := |ops| - 1;
      assert ops[n] in ops && forall op :: op in ops[..n] ==> op in ops;
      WantedStays(v, s, ops[..n], q);
      WantedStep(ViewAfter(v, s, ops[..n]), After(s, ops[..n]), ops[n], q);
    }
  }

  lemma SaysWanted(es: seq<Entry>, sets: Sets, p: Packet)
    ensures ExposedSays(es, sets, p) == Run(Wanted(es, p.dport), [], sets, p)
  {
    hide ExposedSays, Wanted, Run;
    OneCopy(Wanted(es, p.dport));
    CopiesSay(Wanted(es, p.dport), es, sets, p);
  }

  /**
   Without conditions on the outcome: if the packet's port is not exposed between arming and the timer, every packet let
   in, or forwarded, before, and not dropped by an exposure then, is let in, or forwarded, again.
   */
  lemma RollbackRestoresUntouched(v: View, s: Node, cfg: Config, ops: seq<Op>, p: Packet)
    requires Invariant(v, s) && OpsOk(ops) && Undecided(ops) && Accountable(v)
    requires !ExposedSays(v.es, s.sets, p).Dropped? && NotExposed(ops, p.dport)
    ensures var t := Fire(BeforeFire(s, cfg, ops));
            (InputLetsIn(s, p) ==> InputLetsIn(t, p)) && (ForwardLetsIn(s, p) ==> ForwardLetsIn(t, p))
  {
    hide Run, BeforeFire, Fire, ExposedSays, MergeSets, LetsIn, Invariant, Wanted, PortRules, ViewAfter;
    var b, w := BeforeFire(s, cfg, ops), AtFire(v, s, cfg, ops);
    WindowKeeps(v, s, cfg, ops);
    FiredTable(b, s);
    RollbackRestoresAccess(v, s, cfg, ops, p);
    var m := MergeSets(b.sets, s.sets);
    SaysGrows(v.es, s.sets, b.sets, p);
    SaysWanted(v.es, m, p);
    SaysWanted(w.es, m, p);
    EmptyRuns(m, p);
    WantedStays(View(v.es, Lossy, v.status, Some((cfg, []))), InstallUpToArm(s, cfg), ops, p.dport);
  }

  // ---------- who does not ----------

  ghost predicate Foreign(sets: Sets, p: Packet) { !SetHolds(sets, Admin4, p.src) && !SetHolds(sets, Admin6, p.src) }

  lemma ForeignToBoth(a: Sets, b: Sets, p: Packet)
    requires Foreign(a, p) && Foreign(b, p)
    ensures Foreign(MergeSets(a, b), p)
  {
  }

  /** The window of the loss: one exposure of a port under scope admin. */
  function Reexposed(port: nat, stamp: string): seq<Op> { [DoExpose(port, "tcp", "admin", [], stamp)] }

  lemma ReexposedWindow(v: View, s: Node, cfg: Config, port: nat, stamp: string)
    requires Invariant(v, s) && 1 <= port <= 65535 && port !in PEER_PORTS
    ensures var e := Entry(port, Tcp, ScopeAdmin, [], stamp);
            && AtFire(v, s, cfg, Reexposed(port, stamp)).es == Record(v.es, e)
            && BeforeFire(s, cfg, Reexposed(port, stamp)) == ApplyEntry(InstallUpToArm(s, cfg), e)
  {
    hide Invariant, Record, ApplyEntry, InstallUpToArm;
    var ops := Reexposed(port, stamp);
    var v1, armed := View(v.es, Lossy, v.status, Some((cfg, []))), InstallUpToArm(s, cfg);
    assert ops[..0] == [];
    assert After(armed, []) == armed && ViewAfter(v1, armed, []) == v1;
    assert Admin4 in armed.sets by { ArmedHasAdmins(s, cfg); }
    assert CheckExpose(port, "tcp", "admin", [], stamp) == Ok(Entry(port, Tcp, ScopeAdmin, [], stamp));
  }

  lemma ArmedHasAdmins(s: Node, cfg: Config)
    ensures Admin4 in InstallUpToArm(s, cfg).sets
    ensures InstallUpToArm(s, cfg).sets == MergeSets(s.sets, ConfigSets(cfg))
  {
    hide RenderInput, RenderForward;
  }

  /**
   A packet that is lost: its port is exposed to everyone before the installation and exposed again for admins only in
   the window. The snapshot brings the old rule back, but behind the new drop.
   */
  lemma ReexposedIsLost(v: View, s: Node, cfg: Config, stamp: string, p: Packet)
    requires Invariant(v, s) && Accountable(v) && v.base.Some? && Word(stamp)
    requires 1 <= p.dport <= 65535 && p.dport !in PEER_PORTS && p.proto == L4(Tcp) && !p.lo && !p.established
    requires LastFor(v.es, p.dport).Some?
    requires var e := LastFor(v.es, p.dport).value; e.port == p.dport && e.transport == Tcp && e.scope == ScopeGlobal
    requires Foreign(s.sets, p) && Foreign(ConfigSets(cfg), p)
    ensures InputLetsIn(s, p) && !InputLetsIn(Fire(BeforeFire(s, cfg, Reexposed(p.dport, stamp))), p)
  {
    hide Run, BeforeFire, Fire, ExposedSays, MergeSets, LetsIn;
    hide Invariant, PortRules, SetHolds, AtFire, Record, ConfigSets, LastFor;
    hide BlockOf, RemovePort, InstallUpToArm;
    var ops := Reexposed(p.dport, stamp);
    var e := Entry(p.dport, Tcp, ScopeAdmin, [], stamp);
    var b := BeforeFire(s, cfg, ops);
    GlobalWasOpen(v, s, p);
    WindowKeeps(v, s, cfg, ops);
    FiredTable(b, s);
    RollbackRestoresAccess(v, s, cfg, ops, p);
    ReexposedWindow(v, s, cfg, p.dport, stamp);
    LastRecord(v.es, e, p.dport);
    ArmedHasAdmins(s, cfg);
    ForeignToBoth(s.sets, ConfigSets(cfg), p);
    ForeignToBoth(b.sets, s.sets, p);
    LastDrops(Record(v.es, e), e, MergeSets(b.sets, s.sets), p);
    RemoveAndAppend(InstallUpToArm(s, cfg).exposed, e, p.dport);
    assert PortRules(b.exposed, p.dport) == BlockOf(e) != [] by { AdminBlock(e); }
  }

  lemma AdminBlock(e: Entry)
    requires e.scope == ScopeAdmin
    ensures BlockOf(e) != []
  {
  }

  lemma LastDrops(es: seq<Entry>, e: Entry, sets: Sets, p: Packet)
    requires LastFor(es, p.dport) == Some(e) && e.scope == ScopeAdmin && p.proto == L4(e.transport) && p.dport == e.port
    requires Foreign(sets, p)
    ensures ExposedSays(es, sets, p) == Dropped
  {
  }

  lemma GlobalWasOpen(v: View, s: Node, p: Packet)
    requires Invariant(v, s) && Accountable(v) && v.base.Some? && LastFor(v.es, p.dport).Some?
    requires var e := LastFor(v.es, p.dport).value;
             e.port == p.dport && p.proto == L4(e.transport)
             && e.scope == ScopeGlobal
    ensures ExposedSays(v.es, s.sets, p) == Accepted && InputLetsIn(s, p)
  {
    hide EntriesFit, ChainFits, Safe, Agrees, RenderInput, PeerRules, LetsIn;
    AccountableAgrees(v, s);
    CompiledPolicy(v.base.value.0, v.base.value.1, s.exposed, v.es, s.sets, p);
  }

  /** The installation is exactly these steps: arm, seed, and, when the seed succeeded, reapply. */
  lemma InstallIsArmSeedReapply(s: Node, cfg: Config, env: InstallEnv)
    requires StageOf(s, cfg, env) == Complete || StageOf(s, cfg, env) == Unseeded
    ensures var seed, again := DoRefresh(env.text, env.loads, env.now), DoReapply(env.clock);
            Install(s, cfg, env) ==
              After(InstallUpToArm(s, cfg), if StageOf(s, cfg, env) == Complete then [seed, again] else [seed])
  {
    hide Refresh, Reapply, InstallUpToArm, RefreshOk, SelfHeal;
    var armed := InstallUpToArm(s, cfg);
    var seed, again := DoRefresh(env.text, env.loads, env.now), DoReapply(env.clock);
    assert [seed, again][..1] == [seed] && [seed][..0] == [];
    assert After(armed, []) == armed;
    assert After(armed, [seed]) == Refresh(armed, env.text, env.loads, env.now);
  }
}
