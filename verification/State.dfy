/**
 The node as a value: live chains and sets, the files the tool keeps under /etc/sdk-ops/firewall,
 the commit flag and the rollback timer; and what each remote script does to it.
 */
module State {
  import opened Wrappers
  import opened Text
  import opened Cidr
  import opened Nft
  import opened Registry
  import opened Policy

  /** rollback.nft: a listing of the live table. */
  datatype Snapshot = Snapshot(input: Chain, forward: Chain, exposed: Chain, sets: Sets)

  datatype AlertKind = Repaired | Incomplete | RepairFailed

  datatype Alert = Alert(kind: AlertKind, digest: string, time: int)

  datatype Node = Node(
    input: Chain,
    forward: Chain,
    exposed: Chain,
    sets: Sets,
    registry: seq<string>,           // ports.yaml, line by line
    admin4: Option<seq<string>>,     // admin4.elements
    admin6: Option<seq<string>>,     // admin6.elements
    lastSync: Option<int>,           // modification time of the state file
    snapshot: Snapshot,
    committed: bool,                 // /tmp/sdk-ops-fw-commit exists
    armed: bool,                     // the sdk-ops-fw-rollback timer is pending
    loads: nat,                      // how often the timer has loaded the snapshot
    notifyFile: seq<(string, int)>,  // state-notify: digest and time
    alerts: seq<Alert>               // notifications sent by the watchdog
  )

  // ---------- expose, unexpose ----------

  predicate HasJump(c: Chain) { exists r :: r in c && r.action == JumpExposed }

  function EnsureJump(c: Chain): Chain { if HasJump(c) then c else JUMP + c }

  function Expose(s: Node, port: int, proto: string, scope: string, ips: seq<string>, stamp: string):
    Result<Node, ExposeError>
  {
    match CheckExpose(port, proto, scope, ips, stamp)
    case Err(err) => Err(err)
    case Ok(e) => if Admin4 in s.sets then Ok(ApplyEntry(s, e)) else Err(NotInstalled)
  }

  /** The remote half of AllowlistExposePort. */
  function ApplyEntry(s: Node, e: Entry): Node {
    s.(input := EnsureJump(s.input),
       forward := EnsureJump(s.forward),
       exposed := RemovePort(s.exposed, e.port) + BlockOf(e),
       registry := DropLines(s.registry, KeyPrefix(e.port, e.transport, e.scope)) + [RenderLine(e)])
  }

  function Unexpose(s: Node, port: nat): Node {
    s.(exposed := RemovePort(s.exposed, port),
       registry := DropLines(s.registry, Dec(port) + " "))
  }

  // ---------- reapplyPortRegistry ----------

  /** The time stamps of consecutive exposures. */
  type Clock = nat -> string

  ghost predicate Ticks(clock: Clock) { forall i :: Word(clock(i)) }

  function ReapplyLine(s: Node, line: string, stamp: string): Node {
    match ReadArgs(line)
    case None => s
    case Some(a) =>
      match Expose(s, a.port, a.proto, a.scope, a.ips, stamp)
      case Ok(s') => s'
      case Err(_) => s
  }

  function ReapplyLines(s: Node, lines: seq<string>, clock: Clock): Node {
    if lines == [] then s
    else
      var n := |lines| - 1;
      ReapplyLine(ReapplyLines(s, lines[..n], clock), lines[n], clock(n))
  }

  /** The registry is read once, before the first exposure rewrites it. */
  function Reapply(s: Node, clock: Clock): Node { ReapplyLines(s, s.registry, clock) }

  // ---------- the updater script ----------

  function Colons(s: string): nat {
    if s == "" then 0 else Colons(s[..|s| - 1]) + (if s[|s| - 1] == ':' then 1 else 0)
  }

  /** The shape test of the `case`: `*:*:*` or `*::*`. */
  predicate ColonShape(tok: string) { Colons(tok) >= 2 }

  /** The pattern of `cidr6`: hex digits, colons and dots, then optionally one to three digits after a slash. */
  predicate Cidr6(tok: string) {
    var p := Split(tok, '/');
    && !Free(tok, ':')
    && p[0] != "" && (forall i ::
      0 <= i < |p[0]| ==> V6Char(p[0][i]))
      && |p| <= 2 && (|p| == 2 ==> 1 <= |p[1]| <= 3 && Digits(p[1]))
  }

  function Accepted4(text: string): set<string> {
    set t | t in Fields(text) && !ColonShape(t) && Cidr4(t)
  }

  function Accepted6(text: string): set<string> {
    set t | t in Fields(text) && ColonShape(t) && Cidr6(t)
  }

  const MIN_CIDRS := 4

  /** An nft element list is comma-separated; every item must be an address of the set's family. */
  function ElementList(text: string, v6: bool): Option<set<string>> {
    var items := Split(text, ',');
    if exists i :: 0 <= i < |items| && !InFamily(items[i], v6) then None
    else Some(set i | i in items :: TrimSpace(i))
  }

  /** The element file's lines with runs of blanks squeezed, as the `tr | sed` pipeline leaves them. */
  function FileWords(lines: seq<string>): seq<string> {
    if lines == [] then [] else FileWords(lines[..|lines| - 1]) + Fields(lines[|lines| - 1])
  }

  function HealSet(sets: Sets, name: SetName, file: Option<seq<string>>): Sets {
    if file.None? then sets
    else
      var v := Join(FileWords(file.value), ' ');
      if v == "" || name !in sets || sets[name] != {} then sets
      else match ElementList(v, SetIsV6(name))
        case None => sets
        case Some(elements) => sets[name := elements]
  }

  function SelfHeal(s: Node): Node {
    s.(sets := HealSet(HealSet(s.sets, Admin4, s.admin4), Admin6, s.admin6))
  }

  /** Whether `update` gets as far as loading the new sets; `loads` is nft's answer to the batch. */
  predicate RefreshOk(s: Node, text: string, loads: bool) {
    && |Accepted4(text)| + |Accepted6(text)| >= MIN_CIDRS
    && Allow4 in s.sets && Allow6 in s.sets && loads
  }

  /** One run of allowlist.sh on what `gather` fetched. */
  function Refresh(s: Node, text: string, loads: bool, now: int): Node {
    var h := SelfHeal(s);
    if RefreshOk(h, text, loads)
    then h.(sets := h.sets[Allow4 := Accepted4(text)][Allow6 := Accepted6(text)], lastSync := Some(now))
    else h
  }

  // ---------- install, commit, rollback ----------

  function Snap(s: Node): Snapshot { Snapshot(s.input, s.forward, s.exposed, s.sets) }

  /** Snapshot and configuration files, written before anything is checked. */
  function Prepare(s: Node, cfg: Config): Node {
    s.(snapshot := Snap(s),
       admin4 := Some(if cfg.admin4 == [] then [""] else cfg.admin4),
       admin6 := Some(if cfg.admin6 == [] then [""] else cfg.admin6))
  }

  /** `nft flush table`: the rules go, sets and their elements stay. */
  function Flush(s: Node): Node { s.(input := [], forward := [], exposed := []) }

  function Normalized(texts: seq<string>): set<string> { set t | t in texts :: NormalizeCIDR(t) }

  function ConfigSets(cfg: Config): Sets {
    map[Allow4 := {}, Allow6 := {}, Admin4 := Normalized(cfg.admin4), Admin6 := Normalized(cfg.admin6)]
  }

  /** `nft -f` adds to what is there. */
  function LoadConfig(s: Node, cfg: Config): Node {
    s.(input := s.input + RenderInput(cfg),
       forward := s.forward + RenderForward(cfg),
       sets := MergeSets(s.sets, ConfigSets(cfg)))
  }

  function LoadSnapshot(s: Node): Node {
    s.(input := s.input + s.snapshot.input,
       forward := s.forward + s.snapshot.forward,
       exposed := s.exposed + s.snapshot.exposed,
       sets := MergeSets(s.sets, s.snapshot.sets))
  }

  /** The stale commit flag is removed before the timer is armed. */
  function Arm(s: Node): Node { s.(committed := false, armed := true) }

  /** CommitAllowlist: the flag is touched, then the timer is stopped. */
  function Touch(s: Node): Node { s.(committed := true) }

  function StopTimer(s: Node): Node { s.(armed := false) }

  function Commit(s: Node): Node { StopTimer(Touch(s)) }

  /** The rollback unit's command; nothing happens unless the timer is pending. */
  function Fire(s: Node): Node {
    if !s.armed then s
    else if s.committed then s.(armed := false)
    else LoadSnapshot(s).(armed := false, loads := s.loads + 1)
  }

  /** nft's answers, the fetched text and the clock during one installation. */
  datatype InstallEnv = InstallEnv(checks: bool, applies: bool, text: string, loads: bool, now: int, clock: Clock)

  /** The state right after the timer is armed. */
  function InstallUpToArm(s: Node, cfg: Config): Node {
    Arm(LoadConfig(Flush(Prepare(s, cfg)), cfg))
  }

  /** Where InstallAllowlist gets: refused by the check, load failed and undone, seed failed, or complete. */
  datatype InstallStage = Refused | Undone | Unseeded | Complete

  function StageOf(s: Node, cfg: Config, env: InstallEnv): InstallStage {
    if !env.checks then Refused
    else if !env.applies then Undone
    else if !RefreshOk(SelfHeal(InstallUpToArm(s, cfg)), env.text, env.loads) then Unseeded
    else Complete
  }

  function Install(s: Node, cfg: Config, env: InstallEnv): Node {
    var seeded := Refresh(InstallUpToArm(s, cfg), env.text, env.loads, env.now);
    match StageOf(s, cfg, env)
    case Refused => Prepare(s, cfg)
    case Undone => LoadSnapshot(Flush(Prepare(s, cfg)))
    case Unseeded => seeded
    case Complete => Reapply(seeded, env.clock)
  }
}
