/**
 Whole runs of the node: every script in any order, with losses of rules and the rollback timer
 in between. A `View` says what a run has done (entries, configuration, peers); the invariant ties
 the files, the chains and the sets of the node to it.
 */
module Runs {
  import opened Wrappers
  import opened Text
  import opened Cidr
  import opened Nft
  import opened Registry
  import opened Policy
  import opened State
  import opened Refreshing
  import opened Watchdog
  import opened Peering

  datatype Op =
    | DoInstall(cfg: Config, env: InstallEnv)
    | DoExpose(port: int, proto: string, scope: string, ips: seq<string>, stamp: string)
    | DoUnexpose(gone: nat)
    | DoReapply(clock: Clock)
    | DoRefresh(text: string, loads: bool, now: int)
    | DoWatch(w: WatchEnv)
    | DoPeer(peerPort: nat, transport: Transport, address: string)
    | DoTouch
    | DoStopTimer
    | DoFire
    | DoLose(ports: set<nat>)   // the environment: all rules of these ports vanish

  /** Time stamps are single words. */
  ghost predicate OpOk(op: Op) {
    match op
    case DoInstall(_, env) => Ticks(env.clock)
    case DoExpose(_, _, _, _, stamp) => Word(stamp)
    case DoReapply(clock) => Ticks(clock)
    case _ => true
  }

  ghost function Step(s: Node, op: Op): Node {
    match op
    case DoInstall(cfg, env) => Install(s, cfg, env)
    case DoExpose(port, proto, scope, ips, stamp) =>
      (match Expose(s, port, proto, scope, ips, stamp) case Ok(t) => t case Err(_) => s)
    case DoUnexpose(port) => Unexpose(s, port)
    case DoReapply(clock) => Reapply(s, clock)
    case DoRefresh(text, loads, now) => Refresh(s, text, loads, now)
    case DoWatch(w) => Watch(s, w)
    case DoPeer(port, t, raw) => ExposePeer(s, port, t, raw)
    case DoTouch => Touch(s)
    case DoStopTimer => StopTimer(s)
    case DoFire => Fire(s)
    case DoLose(ports) => s.(exposed := Lose(s.exposed, ports))
  }

  ghost function After(s: Node, ops: seq<Op>): Node {
    if ops == [] then s else Step(After(s, ops[..|ops| - 1]), ops[|ops| - 1])
  }

  // ---------- what a run has done ----------

  /** How closely the exposed chain follows the registry. */
  datatype Status = Exact | Agreeing | Lossy | Unknown

  /**
   The registered entries; how the live and the snapshot's exposed chain follow them; the input chain, when described.
   */
  datatype View = View(es: seq<Entry>, status: Status, snap: Status, base: Option<(Config, seq<Peer>)>)

  ghost predicate ChainFits(status: Status, exposed: Chain, es: seq<Entry>) {
    match status
    case Exact => exposed == ChainOf(es)
    case Agreeing => Agrees(exposed, es)
    case Lossy => LossyAgrees(exposed, es)
    case Unknown => true
  }

  ghost predicate BaseFits(base: Option<(Config, seq<Peer>)>, s: Node) {
    base.Some? ==>
      s.input == RenderInput(base.value.0) + PeerRules(base.value.1) && s.forward == RenderForward(base.value.0)
  }

  ghost predicate EntriesFit(es: seq<Entry>, registry: seq<string>) {
    registry == RenderAll(es) && AllValid(es) && UniqueKeys(es)
  }

  /** Never a rule for a cluster peer port, never a jump. */
  ghost predicate Exposable(r: Rule) {
    && r.dport.Some? && |r.dport.value.ports| == 1 && r.dport.value.ports[0] !in PEER_PORTS
    && (r.action == Accept || r.action == Drop)
  }

  ghost predicate AllExposable(c: Chain) { forall r :: r in c ==> Exposable(r) }

  /** The base chains never drop by themselves, nor do those of the snapshot. */
  ghost predicate Safe(s: Node) {
    && NoDrop(s.input) && NoDrop(s.forward) && AllExposable(s.exposed)
    && NoDrop(s.snapshot.input) && NoDrop(s.snapshot.forward) && AllExposable(s.snapshot.exposed)
  }

  /** The invariant but for what the snapshot's exposed chain says. */
  ghost predicate Core(v: View, s: Node) {
    EntriesFit(v.es, s.registry) && ChainFits(v.status, s.exposed, v.es) && BaseFits(v.base, s) && Safe(s)
  }

  ghost predicate Invariant(v: View, s: Node) {
    Core(v, s) && ChainFits(v.snap, s.snapshot.exposed, v.es)
  }

  // ---------- how a step changes the view ----------

  /** The entries with fresh stamps, in the same order. */
  function Restamp(es: seq<Entry>, clock: Clock): seq<Entry> {
    if es == [] then []
    else
      var n := |es| - 1;
      Restamp(es[..n], clock) + [es[n].(stamp := clock(n))]
  }

  /** What two chains that follow the same entries are together: a port lost in one is made up for by the other. */
  function Joined(a: Status, b: Status): Status {
    if a == Unknown || b == Unknown then Unknown else if a == Lossy && b == Lossy then Lossy else Agreeing
  }

  ghost function ViewStep(v: View, s: Node, op: Op): View {
    match op
    case DoInstall(cfg, env) =>
      (match StageOf(s, cfg, env)
       case Refused => v.(snap := v.status)
       case Undone => v.(snap := v.status)
       case Unseeded => View(v.es, Lossy, v.status, Some((cfg, [])))
       case Complete => View(Restamp(v.es, env.clock), Exact, v.status, Some((cfg, []))))
    case DoExpose(port, proto, scope, ips, stamp) =>
      (match CheckExpose(port, proto, scope, ips, stamp)
       case Ok(e) => if Admin4 in s.sets then v.(es := Record(v.es, e), snap := Unknown) else v
       case Err(_) => v)
    case DoUnexpose(port) => v.(es := DropPort(v.es, port), snap := Unknown)
    case DoReapply(clock) => if Admin4 in s.sets then v.(es := Restamp(v.es, clock)) else v
    case DoWatch(w) =>
      if Healthy(s, w.now) || !RefreshSucceeds(s, w) || v.status != Lossy then v else v.(status := Agreeing)
    case DoPeer(port, t, raw) =>
      if v.base.None? || PeerAddr(raw).None? then v
      else
        var (cfg, peers) := v.base.value;
        var q := Peer(port, t, PeerAddr(raw).value);
        v.(base := Some((cfg, Displace(peers, q) + [q])))
    case DoFire => if s.armed && !s.committed then v.(status := Joined(v.status, v.snap), base := None) else v
    case DoLose(ports) => if v.status == Unknown then v else v.(status := Lossy)
    case _ => v
  }

  ghost function ViewAfter(v: View, s: Node, ops: seq<Op>): View {
    if ops == [] then v
    else
      var n := |ops| - 1;
      ViewStep(ViewAfter(v, s, ops[..n]), After(s, ops[..n]), ops[n])
  }

  // ---------- exposures ----------

  lemma RemoveAndAppend(c: Chain, e: Entry, q: nat)
    ensures PortRules(RemovePort(c, e.port) + BlockOf(e), q) == if q == e.port then BlockOf(e) else PortRules(c, q)
  {
    hide PortRules, RemovePort, BlockOf;
    PortRulesConcat(RemovePort(c, e.port), BlockOf(e), q);
    RemoveThenSelect(c, e.port, q);
    BlockPort(e, q);
  }

  lemma RemoveKeepsPerPort(c: Chain, port: nat)
    requires PerPort(c)
    ensures PerPort(RemovePort(c, port))
  {
    PortRulesIn(c, port);
  }

  lemma WantedAfterRecord(es: seq<Entry>, e: Entry, q: nat)
    ensures Wanted(Record(es, e), q) == if q == e.port then BlockOf(e) else Wanted(es, q)
  {
    hide BlockOf, LastFor, Record;
    LastRecord(es, e, q);
  }

  lemma PerPortAfterExpose(c: Chain, e: Entry)
    requires PerPort(c)
    ensures PerPort(RemovePort(c, e.port) + BlockOf(e))
  {
    hide PerPort, RemovePort, BlockOf;
    RemoveKeepsPerPort(c, e.port);
    BlockIsPerPort(e);
    PerPortConcat(RemovePort(c, e.port), BlockOf(e));
  }

  lemma ExposeFits(status: Status, c: Chain, es: seq<Entry>, e: Entry)
    requires ChainFits(status, c, es)
    ensures ChainFits(status, RemovePort(c, e.port) + BlockOf(e), Record(es, e))
  {
    hide PortRules, RemovePort, BlockOf, Record, Wanted, PerPort, Copies, ChainOf;
    if status == Exact {
      ChainRecord(es, e);
    } else if status != Unknown {
      PerPortAfterExpose(c, e);
      forall q: nat
        ensures PortRules(RemovePort(c, e.port) + BlockOf(e), q) == if q == e.port then BlockOf(e) else PortRules(c, q)
        ensures Wanted(Record(es, e), q) == if q == e.port then BlockOf(e) else Wanted(es, q)
      {
        RemoveAndAppend(c, e, q);
        WantedAfterRecord(es, e, q);
      }
      OneCopy(BlockOf(e));
    }
  }

  lemma UnexposeFits(status: Status, c: Chain, es: seq<Entry>, port: nat)
    requires ChainFits(status, c, es)
    ensures ChainFits(status, RemovePort(c, port), DropPort(es, port))
  {
    hide PortRules, RemovePort, DropPort, PerPort, Copies, ChainOf, LastFor, BlockOf;
    if status == Exact {
      ChainDropPort(es, port);
    } else if status != Unknown {
      RemoveKeepsPerPort(c, port);
      forall q: nat
        ensures PortRules(RemovePort(c, port), q) == if q == port then [] else PortRules(c, q)
        ensures Wanted(DropPort(es, port), q) == if q == port then [] else Wanted(es, q)
      {
        RemoveThenSelect(c, port, q);
        LastDropPort(es, port, q);
      }
      OneCopy([]);
    }
  }

  lemma RecordedLines(es: seq<Entry>, e: Entry)
    requires AllValid(es) && UniqueKeys(es) && ValidEntry(e)
    ensures EntriesFit(Record(es, e),
            DropLines(RenderAll(es), KeyPrefix(e.port, e.transport, e.scope)) + [RenderLine(e)])
  {
    hide RenderAll, RenderLine, DropLines, KeyPrefix, ValidEntry, UniqueKeys;
    SedDropsKey(es, KeyOf(e));
    RenderSnoc(DropKey(es, KeyOf(e)), e);
    RecordKeeps(es, e);
  }

  lemma UnexposedLines(es: seq<Entry>, port: nat)
    requires AllValid(es) && UniqueKeys(es)
    ensures EntriesFit(DropPort(es, port), DropLines(RenderAll(es), Dec(port) + " "))
  {
    hide RenderAll, DropLines, Dec, ValidEntry, UniqueKeys, DropPort;
    SedDropsPort(es, port);
    UniqueDrop(es, Key(port, Tcp, ScopeAdmin), port);
    DropIn(es, Key(port, Tcp, ScopeAdmin), port);
  }

  lemma RenderedHasJump(cfg: Config, peers: seq<Peer>)
    ensures HasJump(RenderInput(cfg) + PeerRules(peers)) && HasJump(RenderForward(cfg))
  {
    var j := Plain(Any, JumpExposed);
    assert j in JUMP;
    assert j in INPUT_HEAD + JUMP;
    assert j in RenderInput(cfg);
    assert j in [Plain(Established, Accept)] + JUMP;
    assert j in RenderForward(cfg);
  }

  lemma EntryExposable(e: Entry)
    requires ValidEntry(e)
    ensures AllExposable(BlockOf(e))
  {
    hide Block;
    BlockShape(e.port, e.transport, e.scope, e.ips);
  }

  lemma ApplyKeepsSafe(s: Node, e: Entry)
    requires Safe(s) && ValidEntry(e)
    ensures Safe(ApplyEntry(s, e))
  {
    hide RemovePort, BlockOf, ValidEntry, Exposable, RenderLine, KeyPrefix;
    EntryExposable(e);
    PortRulesIn(s.exposed, e.port);
  }

  lemma BaseKept(base: Option<(Config, seq<Peer>)>, s: Node)
    requires BaseFits(base, s) && base.Some?
    ensures EnsureJump(s.input) == s.input && EnsureJump(s.forward) == s.forward
  {
    RenderedHasJump(base.value.0, base.value.1);
  }

  lemma ApplyKeeps(v: View, s: Node, e: Entry)
    requires Core(v, s) && ValidEntry(e)
    ensures Core(v.(es := Record(v.es, e)), ApplyEntry(s, e))
  {
    hide RemovePort, BlockOf, ValidEntry, Exposable, RenderLine, KeyPrefix, DropLines, RenderAll;
    hide AllValid, UniqueKeys, Record, ChainFits, EnsureJump, Safe, RenderInput, RenderForward;
    RecordedLines(v.es, e);
    ExposeFits(v.status, s.exposed, v.es, e);
    ApplyKeepsSafe(s, e);
    if v.base.Some? {
      BaseKept(v.base, s);
    }
  }

  lemma ExposeKeeps(v: View, s: Node, port: int, proto: string, scope: string, ips: seq<string>, stamp: string)
    requires Core(v, s) && Word(stamp)
    ensures var op := DoExpose(port, proto, scope, ips, stamp); Core(ViewStep(v, s, op), Step(s, op))
  {
    hide CheckExpose, ApplyEntry, Record, Core, ValidEntry;
    CheckedIsValid(port, proto, scope, ips, stamp);
    if CheckExpose(port, proto, scope, ips, stamp).Ok? && Admin4 in s.sets {
      var e := CheckExpose(port, proto, scope, ips, stamp).value;
      ApplyKeeps(v, s, e);
      CoreWithAnySnap(v.(es := Record(v.es, e)), ApplyEntry(s, e), Unknown);
    }
  }

  lemma CoreWithAnySnap(v: View, s: Node, snap: Status)
    requires Core(v, s)
    ensures Core(v.(snap := snap), s)
  {
    hide EntriesFit, ChainFits, BaseFits, Safe;
  }

  lemma UnexposeKeeps(v: View, s: Node, port: nat)
    requires Core(v, s)
    ensures Core(v.(es := DropPort(v.es, port), snap := Unknown), Unexpose(s, port))
  {
    hide RemovePort, DropPort, DropLines, RenderAll, Dec;
    hide AllValid, UniqueKeys, ChainFits, Exposable, RenderInput, RenderForward;
    UnexposedLines(v.es, port);
    UnexposeFits(v.status, s.exposed, v.es, port);
    PortRulesIn(s.exposed, port);
  }

  // ---------- reapplying the registry ----------

  lemma RestampStep(es: seq<Entry>, e: Entry, clock: Clock)
    ensures Restamp(es + [e], clock) == Restamp(es, clock) + [e.(stamp := clock(|es|))]
  {
    assert (es + [e])[..|es|] == es;
  }

  /** After k steps the first k entries have moved behind the rest. */
  function Rotated(es: seq<Entry>, k: nat, clock: Clock): seq<Entry>
    requires k <= |es|
  {
    es[k..] + Restamp(es[..k], clock)
  }

  lemma {:induction false} RestampKeys(es: seq<Entry>, clock: Clock, k: Key)
    requires NoKey(es, k)
    ensures NoKey(Restamp(es, clock), k)
  {
    if es != [] {
      var n := |es| - 1;
      assert es[n] in es;
      RestampKeys(es[..n], clock, k);
    }
  }

  lemma {:induction false} DropAbsent(es: seq<Entry>, k: Key)
    requires NoKey(es, k)
    ensures DropKey(es, k) == es
  {
    if es != [] {
      var n := |es| - 1;
      assert es == es[..n] + [es[n]] && es[n] in es;
      DropAbsent(es[..n], k);
    }
  }

  lemma {:induction false} DropKeyConcat(a: seq<Entry>, b: seq<Entry>, k: Key)
    ensures DropKey(a + b, k) == DropKey(a, k) + DropKey(b, k)
  {
    hide DropKey;
    if b == [] {
      EmptyRegistry();
      assert a + b == a;
    } else {
      var n := |b| - 1;
      assert b == b[..n] + [b[n]] && a + b == a + b[..n] + [b[n]];
      DropKeyConcat(a, b[..n], k);
      EntryStep(a + b[..n], b[n]);
      EntryStep(b[..n], b[n]);
    }
  }

  lemma OthersHaveOtherKeys(es: seq<Entry>, k: nat)
    requires UniqueKeys(es) && k < |es|
    ensures NoKey(es[k + 1..], KeyOf(es[k])) && NoKey(es[..k], KeyOf(es[k]))
  {
    forall i | 0 <= i < |es| && i != k ensures KeyOf(es[i]) != KeyOf(es[k]) {
      if i < k { UniqueByIndex(es, i, k); } else { UniqueByIndex(es, k, i); }
    }
  }

  lemma DropFirst(x: Entry, rest: seq<Entry>)
    requires NoKey(rest, KeyOf(x))
    ensures DropKey([x] + rest, KeyOf(x)) == rest
  {
    hide DropKey, NoKey;
    DropAbsent(rest, KeyOf(x));
    DropKeyConcat([x], rest, KeyOf(x));
    EntryStep([], x);
    EmptyRegistry();
    assert [] + [x] == [x];
    assert [] + rest == rest;
  }

  lemma RotatedForms(es: seq<Entry>, k: nat, clock: Clock)
    requires k < |es|
    ensures Rotated(es, k, clock) == [es[k]] + (es[k + 1..] + Restamp(es[..k], clock))
    ensures Rotated(es, k + 1, clock) == es[k + 1..] + Restamp(es[..k], clock) + [es[k].(stamp := clock(k))]
  {
    hide Restamp;
    assert es[k..] == [es[k]] + es[k + 1..];
    assert es[..k + 1] == es[..k] + [es[k]];
    RestampStep(es[..k], es[k], clock);
  }

  /** The rotation step: the entry's own line is deleted in front and appended behind. */
  lemma RotationStep(es: seq<Entry>, k: nat, clock: Clock)
    requires UniqueKeys(es) && k < |es|
    ensures Record(Rotated(es, k, clock), es[k].(stamp := clock(k))) == Rotated(es, k + 1, clock)
  {
    hide UniqueKeys, DropKey, Restamp, Rotated;
    var rest := es[k + 1..] + Restamp(es[..k], clock);
    OthersHaveOtherKeys(es, k);
    RestampKeys(es[..k], clock, KeyOf(es[k]));
    DropFirst(es[k], rest);
    RotatedForms(es, k, clock);
  }

  /** Reading a written line and exposing again is applying the entry with the new stamp. */
  lemma ReapplyLineApplies(s: Node, e: Entry, stamp: string)
    requires ValidEntry(e) && Admin4 in s.sets
    ensures ReapplyLine(s, RenderLine(e), stamp) == ApplyEntry(s, e.(stamp := stamp))
  {
    hide ReadArgs, CheckExpose, RenderLine, ApplyEntry, ValidEntry;
    LineRoundTrip(e, stamp);
  }

  lemma RestampedValid(e: Entry, stamp: string)
    requires ValidEntry(e) && Word(stamp)
    ensures ValidEntry(e.(stamp := stamp)) && KeyOf(e.(stamp := stamp)) == KeyOf(e)
  {
    hide Normal, FirstBad;
  }

  ghost function ReapplyPrefix(s: Node, es: seq<Entry>, k: nat, clock: Clock): Node
    requires k <= |es|
  {
    ReapplyLines(s, RenderAll(es[..k]), clock)
  }

  lemma ReapplyPrefixStep(s: Node, es: seq<Entry>, k: nat, clock: Clock)
    requires k < |es|
    ensures ReapplyPrefix(s, es, k + 1, clock) ==
            ReapplyLine(ReapplyPrefix(s, es, k, clock), RenderLine(es[k]), clock(k))
  {
    hide RenderAll, RenderLine, ReapplyLine;
    assert es[..k + 1] == es[..k] + [es[k]];
    RenderSnoc(es[..k], es[k]);
    var lines := RenderAll(es[..k + 1]);
    assert |lines| == k + 1 by { RenderLength(es[..k + 1]); }
    assert lines[..k] == RenderAll(es[..k]) by { RenderLength(es[..k]); }
  }

  lemma {:induction false} RenderLength(es: seq<Entry>)
    ensures |RenderAll(es)| == |es|
  {
    hide RenderLine;
    if es != [] {
      RenderLength(es[..|es| - 1]);
    }
  }

  lemma ReapplyPrefixNone(s: Node, es: seq<Entry>, clock: Clock)
    ensures ReapplyPrefix(s, es, 0, clock) == s && Rotated(es, 0, clock) == es
  {
    assert es[..0] == [] && es[0..] + [] == es;
  }

  /**
   The loop invariant of reapplyPortRegistry: the view's entries are rotated, everything else of the invariant stands.
   */
  lemma {:induction false} ReapplyRotates(v: View, s: Node, k: nat, clock: Clock)
    requires Core(v, s) && Ticks(clock) && Admin4 in s.sets && k <= |v.es|
    ensures var t := ReapplyPrefix(s, v.es, k, clock);
            Core(v.(es := Rotated(v.es, k, clock)), t) && t.sets == s.sets
  {
    hide ApplyEntry, Rotated, Record, ReapplyPrefix, ReapplyLine, RenderLine, Core, ValidEntry, KeyOf;
    if k == 0 {
      ReapplyPrefixNone(s, v.es, clock);
      assert v.(es := v.es) == v;
    } else {
      var j := k - 1;
      var t := ReapplyPrefix(s, v.es, j, clock);
      var e := v.es[j].(stamp := clock(j));
      ReapplyRotates(v, s, j, clock);
      ReapplyPrefixStep(s, v.es, j, clock);
      InvariantEntry(v, s, j);
      RestampedValid(v.es[j], clock(j));
      ReapplyLineApplies(t, v.es[j], clock(j));
      ApplyKeeps(v.(es := Rotated(v.es, j, clock)), t, e);
      RotationStep(v.es, j, clock);
      ApplySets(t, e);
    }
  }

  lemma InvariantEntry(v: View, s: Node, j: nat)
    requires Core(v, s) && j < |v.es|
    ensures ValidEntry(v.es[j]) && UniqueKeys(v.es)
  {
    hide ValidEntry, ChainFits, BaseFits, Safe, RenderAll;
    assert v.es[j] in v.es;
  }

  lemma ApplySets(s: Node, e: Entry)
    ensures ApplyEntry(s, e).sets == s.sets
  {
  }

  lemma ReapplyKeeps(v: View, s: Node, clock: Clock)
    requires Core(v, s) && Ticks(clock)
    ensures var op := DoReapply(clock); Core(ViewStep(v, s, op), Step(s, op))
  {
    hide Core, RenderAll, ReapplyLines, Restamp;
    if Admin4 in s.sets {
      ReapplyRotates(v, s, |v.es|, clock);
      RotatedFully(v.es, clock);
      assert v.es[..|v.es|] == v.es;
      InvariantLines(v, s);
    } else {
      ReapplyRefused(s, s.registry, clock);
    }
  }

  lemma InvariantLines(v: View, s: Node)
    requires Core(v, s)
    ensures s.registry == RenderAll(v.es)
  {
    hide ChainFits, BaseFits, Safe, RenderAll, AllValid, UniqueKeys;
  }

  lemma RotatedFully(es: seq<Entry>, clock: Clock)
    ensures Rotated(es, |es|, clock) == Restamp(es, clock)
  {
    hide Restamp;
    assert es[..|es|] == es && es[|es|..] == [];
    assert [] + Restamp(es, clock) == Restamp(es, clock);
  }

  /** Without the admin set every exposure is refused and nothing changes. */
  lemma {:induction false} ReapplyRefused(s: Node, lines: seq<string>, clock: Clock)
    requires Admin4 !in s.sets
    ensures ReapplyLines(s, lines, clock) == s
  {
    hide ReadArgs, CheckExpose, ApplyEntry;
    if lines != [] {
      ReapplyRefused(s, lines[..|lines| - 1], clock);
    }
  }

  /** From an empty chain, k steps rebuild the chain of the first k entries. */
  lemma {:induction false} ReapplyRebuilds(v: View, s: Node, k: nat, clock: Clock)
    requires Core(v, s) && Ticks(clock) && Admin4 in s.sets && k <= |v.es| && s.exposed == []
    ensures ReapplyPrefix(s, v.es, k, clock).exposed == ChainOf(Restamp(v.es[..k], clock))
  {
    hide Rotated, ReapplyPrefix, ReapplyLine, RenderLine, Core, ValidEntry, Restamp, ChainOf, KeyOf;
    if k == 0 {
      ReapplyPrefixNone(s, v.es, clock);
      RestampNone(v.es, clock);
    } else {
      var j := k - 1;
      var t := ReapplyPrefix(s, v.es, j, clock);
      var e := v.es[j].(stamp := clock(j));
      ReapplyRebuilds(v, s, j, clock);
      ReapplyRotates(v, s, j, clock);
      ReapplyPrefixStep(s, v.es, j, clock);
      InvariantEntry(v, s, j);
      ReapplyLineApplies(t, v.es[j], clock(j));
      ChainSnoc(Restamp(v.es[..j], clock), e);
      assert v.es[..k] == v.es[..j] + [v.es[j]];
      RestampStep(v.es[..j], v.es[j], clock);
      AppliedExposed(t, e);
    }
  }

  lemma AppliedExposed(s: Node, e: Entry)
    ensures ApplyEntry(s, e).exposed == RemovePort(s.exposed, e.port) + BlockOf(e)
  {
  }

  lemma RestampNone(es: seq<Entry>, clock: Clock)
    ensures ChainOf(Restamp(es[..0], clock)) == []
  {
    assert es[..0] == [];
  }

  /**
   Reinstall recovery: after the flush, reapplying leaves the same entries in the same order with fresh stamps, and
   exactly their chain.
   */
  lemma ReapplyRecovers(v: View, s: Node, clock: Clock)
    requires Core(v, s) && Ticks(clock) && Admin4 in s.sets && s.exposed == []
    ensures Reapply(s, clock).registry == RenderAll(Restamp(v.es, clock))
    ensures Reapply(s, clock).exposed == ChainOf(Restamp(v.es, clock))
    ensures Core(v.(es := Restamp(v.es, clock), status := Exact), Reapply(s, clock))
  {
    hide BaseFits, Safe, RenderAll, ReapplyLines, Restamp, AllValid, UniqueKeys, ChainOf;
    ReapplyRebuilds(v, s, |v.es|, clock);
    ReapplyRotates(v, s, |v.es|, clock);
    RotatedFully(v.es, clock);
    assert v.es[..|v.es|] == v.es;
  }

  /** Fresh stamps change neither the entries otherwise nor the chain. */
  lemma {:induction false} RestampSameChain(es: seq<Entry>, clock: Clock)
    ensures |Restamp(es, clock)| == |es|
    ensures forall i :: 0 <= i < |es| ==> Restamp(es, clock)[i] == es[i].(stamp := clock(i))
    ensures ChainOf(Restamp(es, clock)) == ChainOf(es)
  {
    hide RemovePort, BlockOf, HasPort, ChainOf;
    if es == [] {
      ChainOfNone();
    } else {
      var n := |es| - 1;
      var e := es[n].(stamp := clock(n));
      RestampSameChain(es[..n], clock);
      assert es == es[..n] + [es[n]];
      ChainSnoc(es[..n], es[n]);
      ChainSnoc(Restamp(es[..n], clock), e);
      SameBlock(es[n], clock(n));
    }
  }

  lemma SameBlock(e: Entry, stamp: string)
    ensures BlockOf(e.(stamp := stamp)) == BlockOf(e)
  {
  }

  // ---------- the other steps ----------

  lemma OnlySetsKeep(v: View, s: Node, t: Node)
    requires Core(v, s)
    requires t.input == s.input && t.forward == s.forward && t.exposed == s.exposed && t.registry == s.registry
             && t.snapshot == s.snapshot
    ensures Core(v, t)
  {
    hide EntriesFit, ChainFits, RenderInput, RenderForward, PeerRules, Exposable;
  }

  lemma RefreshKeeps(v: View, s: Node, text: string, loads: bool, now: int)
    requires Core(v, s)
    ensures Core(v, Refresh(s, text, loads, now))
  {
    hide Core, Refresh;
    RefreshKeepsRules(s, text, loads, now);
    OnlySetsKeep(v, s, Refresh(s, text, loads, now));
  }

  lemma FitsLossy(status: Status, exposed: Chain, es: seq<Entry>)
    requires ChainFits(status, exposed, es) && status != Unknown
    ensures LossyAgrees(exposed, es)
  {
    hide LossyAgrees, Agrees, ChainOf;
    if status == Exact {
      ExactChainAgrees(es);
      AgreesIsLossy(exposed, es);
    } else if status == Agreeing {
      AgreesIsLossy(exposed, es);
    }
  }

  lemma {:induction false} AppendedExposable(exposed: Chain, es: seq<Entry>, ports: seq<nat>)
    requires AllExposable(exposed) && AllValid(es)
    ensures AllExposable(AppendWanted(exposed, es, ports))
  {
    hide Exposable, LastFor, BlockOf, ValidEntry;
    if ports != [] {
      var init, port := ports[..|ports| - 1], ports[|ports| - 1];
      AppendedExposable(exposed, es, init);
      LastIn(es, port);
      match LastFor(es, port) {
        case Some(e) => EntryExposable(e);
        case None =>
      }
    }
  }

  lemma RestoredChain(s: Node, es: seq<Entry>, w: WatchEnv)
    requires s.registry == RenderAll(es) && AllValid(es)
    ensures Restored(s, w).exposed == AppendWanted(s.exposed, es, MissingPorts(es, s.exposed))
  {
    hide Refresh, RenderAll, AllValid, Missing, RestoreAll;
    MissingOfRendered(es, s.exposed);
    RestoreOfRendered(s.exposed, es, MissingPorts(es, s.exposed));
    RefreshKeepsRules(s.(sets := Recreate(s.sets)), w.text, w.loads, w.now);
  }

  lemma WatchExposed(s: Node, w: WatchEnv)
    ensures Watch(s, w).exposed ==
            if Healthy(s, w.now) || !RefreshSucceeds(s, w) then s.exposed else Restored(s, w).exposed
  {
    hide Refresh, RefreshSucceeds, Healthy, StillBroken, Restored;
    RefreshKeepsRules(s.(sets := Recreate(s.sets)), w.text, w.loads, w.now);
  }

  lemma ReplaceExposed(v: View, s: Node, t: Node, status: Status)
    requires Core(v, s) && ChainFits(status, t.exposed, v.es) && AllExposable(t.exposed)
    requires t.input == s.input && t.forward == s.forward && t.registry == s.registry && t.snapshot == s.snapshot
    ensures Core(v.(status := status), t)
  {
    hide EntriesFit, ChainFits, RenderInput, RenderForward, PeerRules, Exposable;
  }

  /** Repair turns a lossy chain into an agreeing one and leaves any agreeing chain as it is. */
  lemma RepairedFits(status: Status, exposed: Chain, es: seq<Entry>)
    requires ChainFits(status, exposed, es)
    ensures var repaired := AppendWanted(exposed, es, MissingPorts(es, exposed));
            && ChainFits(if status == Lossy then Agreeing else status, repaired, es)
            && (status == Exact || status == Agreeing ==> repaired == exposed)
  {
    hide LossyAgrees, Agrees, ChainOf, AppendWanted, MissingPorts, PortRules;
    match status {
      case Exact =>
        ExactChainAgrees(es);
        MissingHaveNone(es, exposed);
        AgreeingUntouched(exposed, es, MissingPorts(es, exposed));
      case Agreeing =>
        MissingHaveNone(es, exposed);
        AgreeingUntouched(exposed, es, MissingPorts(es, exposed));
      case Lossy => AppendingHeals(exposed, es);
      case Unknown =>
    }
  }

  lemma WatchKeeps(v: View, s: Node, w: WatchEnv)
    requires Core(v, s)
    ensures Core(ViewStep(v, s, DoWatch(w)), Watch(s, w))
  {
    hide Watch, Restored, Healthy, RefreshSucceeds, Agrees, LossyAgrees;
    hide RenderAll, AllValid, UniqueKeys, BaseFits, AppendWanted, MissingPorts, ChainOf;
    var t := Watch(s, w);
    WatchKeepsBaseChains(s, w);
    WatchExposed(s, w);
    if Healthy(s, w.now) || !RefreshSucceeds(s, w) {
      OnlySetsKeep(v, s, t);
    } else {
      RestoredChain(s, v.es, w);
      AppendedExposable(s.exposed, v.es, MissingPorts(v.es, s.exposed));
      RepairedFits(v.status, s.exposed, v.es);
      ReplaceExposed(v, s, t, if v.status == Lossy then Agreeing else v.status);
    }
  }

  lemma PeerKeeps(v: View, s: Node, port: nat, t: Transport, raw: string)
    requires Core(v, s)
    ensures var op := DoPeer(port, t, raw); Core(ViewStep(v, s, op), Step(s, op))
  {
    hide PeerAddr, EntriesFit, ChainFits, RenderInput, RenderForward, Exposable, Displace, DeleteHits, Hit;
    if PeerAddr(raw).Some? {
      var q := Peer(port, t, PeerAddr(raw).value);
      DeleteKeeps(s.input, q.port, q.text);
      if v.base.Some? {
        PeerOnRendered(s, v.base.value.0, v.base.value.1, q);
      }
    }
  }

  lemma {:induction false} RepeatTogether(block: Chain, j: nat, k: nat)
    ensures Repeat(block, j) + Repeat(block, k) == Repeat(block, j + k)
  {
    if k == 0 {
      assert Repeat(block, j) + [] == Repeat(block, j);
    } else {
      RepeatTogether(block, j, k - 1);
    }
  }

  lemma CopiesTogether(a: Chain, b: Chain, block: Chain)
    requires Copies(a, block) && Copies(b, block)
    ensures Copies(a + b, block)
  {
    var j: nat :| j > 0 && a == Repeat(block, j);
    var k: nat :| k > 0 && b == Repeat(block, k);
    RepeatTogether(block, j, k);
  }

  lemma PortsTogether(a: Chain, b: Chain, block: Chain)
    requires (a == [] || Copies(a, block)) && (b == [] || Copies(b, block))
    ensures a + b == [] || Copies(a + b, block)
    ensures Copies(a, block) || Copies(b, block) ==> Copies(a + b, block)
  {
    hide Copies;
    assert a == [] ==> a + b == b;
    assert b == [] ==> a + b == a;
    if a != [] && b != [] {
      CopiesTogether(a, b, block);
    }
    if Copies(a, block) && Copies(b, block) {
      CopiesTogether(a, b, block);
    }
  }

  /** Two chains that follow the same entries, loaded one after the other. */
  lemma JoinFits(a: Status, live: Chain, b: Status, more: Chain, es: seq<Entry>)
    requires ChainFits(a, live, es) && ChainFits(b, more, es)
    ensures ChainFits(Joined(a, b), live + more, es)
  {
    hide PortRules, Copies, Wanted, PerPort, ChainOf;
    if a != Unknown && b != Unknown {
      FitsLossy(a, live, es);
      FitsLossy(b, more, es);
      PerPortConcat(live, more);
      if a == Exact || b == Exact {
        ExactChainAgrees(es);
      }
      forall q: nat
        ensures PortRules(live + more, q) == [] || Copies(PortRules(live + more, q), Wanted(es, q))
        ensures a != Lossy || b != Lossy ==> Copies(PortRules(live + more, q), Wanted(es, q))
      {
        PortRulesConcat(live, more, q);
        PortsTogether(PortRules(live, q), PortRules(more, q), Wanted(es, q));
      }
    }
  }

  lemma FireKeeps(v: View, s: Node)
    requires Invariant(v, s)
    ensures Core(ViewStep(v, s, DoFire), Fire(s))
  {
    hide EntriesFit, RenderInput, RenderForward, Exposable, MergeSets, ChainFits;
    JoinFits(v.status, s.exposed, v.snap, s.snapshot.exposed, v.es);
  }

  lemma LoseKeeps(v: View, s: Node, ports: set<nat>)
    requires Core(v, s)
    ensures Core(ViewStep(v, s, DoLose(ports)), s.(exposed := Lose(s.exposed, ports)))
  {
    hide EntriesFit, LossyAgrees, BaseFits, Exposable, Lose;
    var t := s.(exposed := Lose(s.exposed, ports));
    LoseIn(s.exposed, ports);
    if v.status == Unknown {
      ReplaceExposed(v, s, t, Unknown);
      assert v.(status := Unknown) == v;
    } else {
      FitsLossy(v.status, s.exposed, v.es);
      LosingIsLossy(s.exposed, v.es, ports);
      ReplaceExposed(v, s, t, Lossy);
    }
  }

  // ---------- installation ----------

  lemma RenderedNoDrop(cfg: Config)
    ensures NoDrop(RenderInput(cfg)) && NoDrop(RenderForward(cfg))
  {
  }

  lemma PrepareKeeps(v: View, s: Node, cfg: Config)
    requires Core(v, s)
    ensures Core(v, Prepare(s, cfg))
  {
    hide EntriesFit, ChainFits, RenderInput, RenderForward, Exposable;
  }

  /**
   A failed load is undone completely: flushing and loading the snapshot just taken gives every chain and set back.
   */
  lemma UndoneIsNeutral(s: Node, cfg: Config)
    ensures LoadSnapshot(Flush(Prepare(s, cfg))) == Prepare(s, cfg)
  {
    var t := LoadSnapshot(Flush(Prepare(s, cfg)));
    assert t.input == s.input && t.forward == s.forward && t.exposed == s.exposed;
    MergeSelf(s.sets);
  }

  lemma EmptyIsLossy(es: seq<Entry>)
    ensures LossyAgrees([], es)
  {
  }

  lemma ArmedFits(v: View, s: Node, cfg: Config)
    requires Core(v, s)
    ensures Core(View(v.es, Lossy, v.status, Some((cfg, []))), InstallUpToArm(s, cfg))
    ensures InstallUpToArm(s, cfg).exposed == [] && Admin4 in InstallUpToArm(s, cfg).sets
  {
    hide EntriesFit, LossyAgrees, RenderInput, RenderForward, Exposable;
    EmptyIsLossy(v.es);
    RenderedNoDrop(cfg);
    assert [] + RenderInput(cfg) == RenderInput(cfg) + PeerRules([]);
    assert [] + RenderForward(cfg) == RenderForward(cfg);
  }

  lemma RefreshKeepsKeys(s: Node, text: string, loads: bool, now: int)
    ensures s.sets.Keys <= Refresh(s, text, loads, now).sets.Keys
  {
    hide HealSet, RefreshOk;
    SelfHealKeeps(s);
  }

  lemma InstallKeeps(v: View, s: Node, cfg: Config, env: InstallEnv)
    requires Core(v, s) && Ticks(env.clock)
    ensures Core(ViewStep(v, s, DoInstall(cfg, env)), Install(s, cfg, env))
  {
    hide Core, Refresh, Reapply, InstallUpToArm, Prepare, Restamp, LoadSnapshot, RefreshOk, SelfHeal;
    PrepareKeeps(v, s, cfg);
    CoreWithAnySnap(v, Prepare(s, cfg), v.status);
    UndoneIsNeutral(s, cfg);
    var armed := InstallUpToArm(s, cfg);
    var seeded := Refresh(armed, env.text, env.loads, env.now);
    var v' := View(v.es, Lossy, v.status, Some((cfg, [])));
    ArmedFits(v, s, cfg);
    RefreshKeeps(v', armed, env.text, env.loads, env.now);
    RefreshKeepsRules(armed, env.text, env.loads, env.now);
    RefreshKeepsKeys(armed, env.text, env.loads, env.now);
    ReapplyRecovers(v', seeded, env.clock);
  }

  // ---------- every run ----------

  lemma CoreKeeps(v: View, s: Node, op: Op)
    requires Invariant(v, s) && OpOk(op)
    ensures Core(ViewStep(v, s, op), Step(s, op))
  {
    hide Core, ChainFits, Install, Expose, CheckExpose, Unexpose, Reapply, Refresh, Watch, ExposePeer;
    hide PeerAddr, Fire, Lose, Record, DropPort, Restamp, Displace, StageOf, Healthy, RefreshSucceeds;
    match op {
      case DoInstall(cfg, env) => InstallKeeps(v, s, cfg, env);
      case DoExpose(port, proto, scope, ips, stamp) => ExposeKeeps(v, s, port, proto, scope, ips, stamp);
      case DoUnexpose(port) => UnexposeKeeps(v, s, port);
      case DoReapply(clock) => ReapplyKeeps(v, s, clock);
      case DoRefresh(text, loads, now) => RefreshKeeps(v, s, text, loads, now);
      case DoWatch(w) => WatchKeeps(v, s, w);
      case DoPeer(port, t, raw) => PeerKeeps(v, s, port, t, raw);
      case DoTouch => OnlySetsKeep(v, s, Touch(s));
      case DoStopTimer => OnlySetsKeep(v, s, StopTimer(s));
      case DoFire => FireKeeps(v, s);
      case DoLose(ports) => LoseKeeps(v, s, ports);
    }
  }

  // ---------- the snapshot ----------

  lemma SameWanted(es: seq<Entry>, clock: Clock, q: nat)
    ensures Wanted(Restamp(es, clock), q) == Wanted(es, q)
  {
    hide Wanted, ChainOf, PortRules, Restamp;
    RestampSameChain(es, clock);
    ChainPerPort(es, q);
    ChainPerPort(Restamp(es, clock), q);
  }

  lemma RestampFits(status: Status, c: Chain, es: seq<Entry>, clock: Clock)
    requires ChainFits(status, c, es)
    ensures ChainFits(status, c, Restamp(es, clock))
  {
    hide Wanted, ChainOf, PortRules, Restamp, Copies, PerPort;
    RestampSameChain(es, clock);
    forall q: nat ensures Wanted(Restamp(es, clock), q) == Wanted(es, q) {
      SameWanted(es, clock, q);
    }
  }

  /** Only installations touch the snapshot, and they take it of the chains as they find them. */
  lemma SnapshotOf(s: Node, op: Op)
    ensures Step(s, op).snapshot == if op.DoInstall? then Snap(s) else s.snapshot
  {
    hide CheckExpose, ReapplyLines, Refresh, Watch, PeerAddr, Lose, DeleteHits, RenderLine, KeyPrefix, BlockOf;
    hide Install;
    match op {
      case DoInstall(cfg, env) => InstallSnapshot(s, cfg, env);
      case DoReapply(clock) => ReapplySnapshot(s, s.registry, clock);
      case DoRefresh(text, loads, now) => RefreshKeepsRules(s, text, loads, now);
      case DoWatch(w) => WatchKeepsBaseChains(s, w);
      case _ =>
    }
  }

  lemma {:induction false} ReapplySnapshot(s: Node, lines: seq<string>, clock: Clock)
    ensures ReapplyLines(s, lines, clock).snapshot == s.snapshot
  {
    hide ReadArgs, CheckExpose, RemovePort, BlockOf;
    if lines != [] {
      ReapplySnapshot(s, lines[..|lines| - 1], clock);
    }
  }

  lemma InstallSnapshot(s: Node, cfg: Config, env: InstallEnv)
    ensures Install(s, cfg, env).snapshot == Snap(s)
  {
    hide Refresh, ReapplyLines, RefreshOk, SelfHeal, RenderInput, RenderForward, MergeSets;
    var armed := InstallUpToArm(s, cfg);
    var seeded := Refresh(armed, env.text, env.loads, env.now);
    RefreshKeepsRules(armed, env.text, env.loads, env.now);
    ReapplySnapshot(seeded, seeded.registry, env.clock);
  }

  lemma SnapKeeps(v: View, s: Node, op: Op)
    requires Invariant(v, s)
    ensures var w := ViewStep(v, s, op); ChainFits(w.snap, Step(s, op).snapshot.exposed, w.es)
  {
    hide Step, EntriesFit, BaseFits, Safe, CheckExpose, PeerAddr, Displace, Record, Restamp, DropPort, Healthy;
    hide RefreshSucceeds, StageOf, Agrees, LossyAgrees, ChainOf;
    SnapshotOf(s, op);
    match op {
      case DoInstall(cfg, env) => RestampFits(v.status, s.exposed, v.es, env.clock);
      case DoReapply(clock) => RestampFits(v.snap, s.snapshot.exposed, v.es, clock);
      case _ =>
    }
  }

  lemma StepKeeps(v: View, s: Node, op: Op)
    requires Invariant(v, s) && OpOk(op)
    ensures Invariant(ViewStep(v, s, op), Step(s, op))
  {
    hide Core, ChainFits, ViewStep, Step;
    CoreKeeps(v, s, op);
    SnapKeeps(v, s, op);
  }

  ghost predicate OpsOk(ops: seq<Op>) { forall op :: op in ops ==> OpOk(op) }

  /** The invariant holds after every run. */
  lemma {:induction false} RunKeeps(v: View, s: Node, ops: seq<Op>)
    requires Invariant(v, s) && OpsOk(ops)
    ensures Invariant(ViewAfter(v, s, ops), After(s, ops))
  {
    hide Invariant, Step, ViewStep, OpOk;
    if ops != [] {
      var n := |ops| - 1;
      assert ops[n] in ops && forall op :: op in ops[..n] ==> op in ops;
      RunKeeps(v, s, ops[..n]);
      StepKeeps(ViewAfter(v, s, ops[..n]), After(s, ops[..n]), ops[n]);
    }
  }
}
