/**
 Versioned releases of one service: numbered version directories and the `current` and `previous` links.
 */
module Releases {
  import opened Wrappers
  import opened Text

  /**
   What a link's text names: a version directory; another directory (`.`, `..`, `v1/src`), by its path from the service
   directory; one of the two links themselves; or a name inside the directory one of the links leads to.
   */
  datatype Link =
    | Nowhere
    | Version(n: nat)
    | Directory(path: string)
    | CurrentLink
    | PreviousLink
    | BelowCurrent(sub: string)
    | BelowPrevious(sub: string)

  /** What an upload brings: its files, and the names of the directories among them. */
  datatype Content = Content(files: string, subdirs: set<string>)

  /** `others` holds the paths of all directories that are no version directories. */
  datatype Service = Service(dirs: map<nat, Content>, others: set<string>, current: Link, previous: Link)

  /** Before the first upload there is the service directory with what surrounds it. */
  const EMPTY := Service(map[], {".", ".."}, Nowhere, Nowhere)

  // ---------- resolving links ----------

  /** The directory a path leads to. */
  datatype Place = AtVersion(n: nat) | Elsewhere(path: string)

  function PathOf(p: Place): string {
    match p case AtVersion(n) => "v" + Dec(n) case Elsewhere(path) => path
  }

  function InDirectory(p: Place, sub: string): string { PathOf(p) + "/" + sub }

  function Other(s: Service, path: string): Option<Place> {
    if path in s.others then Some(Elsewhere(path)) else None
  }

  function Below(s: Service, p: Option<Place>, sub: string): Option<Place> {
    match p case Some(place) => Other(s, InDirectory(place, sub)) case None => None
  }

  /** Following links; two hops are enough for two links, a third would repeat one. */
  function Follow(s: Service, l: Link, hops: nat): Option<Place>
    decreases hops
  {
    match l
    case Nowhere => None
    case Version(n) => if n in s.dirs then Some(AtVersion(n)) else None
    case Directory(path) => Other(s, path)
    case CurrentLink => if hops == 0 then None else Follow(s, s.current, hops - 1)
    case PreviousLink => if hops == 0 then None else Follow(s, s.previous, hops - 1)
    case BelowCurrent(sub) => if hops == 0 then None else Below(s, Follow(s, s.current, hops - 1), sub)
    case BelowPrevious(sub) => if hops == 0 then None else Below(s, Follow(s, s.previous, hops - 1), sub)
  }

  /** Any longer chain is a cycle: more hops never resolve more. */
  lemma {:induction false} TwoHopsSuffice(s: Service, l: Link, hops: nat)
    requires hops >= 2
    ensures Follow(s, l, hops) == Follow(s, l, 2)
    decreases hops
  {
    hide Below, Other;
    if hops == 3 {
      ThirdHop(s, l);
    } else if hops > 3 {
      TwoHopsSuffice(s, s.current, hops - 1);
      TwoHopsSuffice(s, s.previous, hops - 1);
      TwoHopsSuffice(s, l, 3);
    }
  }

  /** Among three names on the way, one of the two links occurs twice, and the chain never ends. */
  lemma ThirdHop(s: Service, l: Link)
    ensures Follow(s, l, 3) == Follow(s, l, 2)
  {
    hide Other;
    assert Follow(s, s.current, 2) == Follow(s, s.current, 1) || Follow(s, s.current, 1).None?;
  }

  predicate ThroughCurrent(l: Link) { l.CurrentLink? || l.BelowCurrent? }

  function Current(s: Service): Option<Place> { Follow(s, s.current, 2) }

  function Previous(s: Service): Option<Place> { Follow(s, s.previous, 2) }

  function LinkTo(p: Place): Link { match p case AtVersion(n) => Version(n) case Elsewhere(path) => Directory(path) }

  function Inside(p: Option<Place>, sub: string): Option<Link> {
    match p case Some(place) => Some(Directory(InDirectory(place, sub))) case None => None
  }

  /**
   What `readlink -f` prints for a path: the directory it leads to; where only the last name does not exist, the path up
   to there, which may be a link's own; and nothing where a link loops or an inner name does not exist.
   */
  function ReadPath(s: Service, l: Link, hops: nat): Option<Link>
    decreases hops
  {
    match l
    case Nowhere => None
    case Version(_) => Some(l)
    case Directory(_) => Some(l)
    case CurrentLink =>
      if s.current == Nowhere then Some(CurrentLink) else if hops == 0 then None else ReadPath(s, s.current, hops - 1)
    case PreviousLink =>
      if s.previous == Nowhere then Some(PreviousLink) else if hops == 0
        then None else ReadPath(s, s.previous, hops - 1)
    case BelowCurrent(sub) => if hops == 0 then None else Inside(Follow(s, s.current, hops - 1), sub)
    case BelowPrevious(sub) => if hops == 0 then None else Inside(Follow(s, s.previous, hops - 1), sub)
  }

  // ---------- deploy ----------

  /** `sort -n | tail -1`. */
  function Max(dirs: set<nat>): nat
    requires dirs != {}
  {
    HasGreatest(dirs);
    assert exists n :: n in dirs && forall m :: m in dirs ==> m <= n by {
      var n :| IsGreatest(n, dirs);
    }
    var n :| n in dirs && forall m :: m in dirs ==> m <= n;
    n
  }

  ghost predicate IsGreatest(n: nat, dirs: set<nat>) { n in dirs && forall m :: m in dirs ==> m <= n }

  lemma {:induction false} HasGreatest(dirs: set<nat>)
    requires dirs != {}
    ensures exists n :: IsGreatest(n, dirs)
    decreases |dirs|
  {
    var x :| x in dirs;
    var rest := dirs - {x};
    assert dirs == rest + {x};
    if rest == {} {
      assert IsGreatest(x, dirs);
    } else {
      HasGreatest(rest);
      var y :| IsGreatest(y, rest);
      assert IsGreatest(if x <= y then y else x, dirs);
    }
  }

  /** nextVersion: one more than the greatest listed number; "1" when nothing is listed or the listing call failed. */
  function NextVersion(dirs: set<nat>, listed: bool): nat {
    if !listed || dirs == {} then 1 else Max(dirs) + 1
  }

  /**
   How far UploadAndDeploy gets: no session; the directory made but not fully extracted; links not updated; all done.
   */
  datatype Outcome = NoSession | PartlyExtracted(partial: Content) | LinksFailed | Linked

  function Deploy(s: Service, listed: bool, outcome: Outcome, content: Content): Service {
    var n := NextVersion(s.dirs.Keys, listed);
    match outcome
    case NoSession => s
    case PartlyExtracted(partial) => Extract(s, n, partial)
    case LinksFailed => Extract(s, n, content)
    case Linked => Extract(s, n, content).(previous := CurrentLink, current := Version(n))
  }

  function Extract(s: Service, n: nat, content: Content): Service {
    s.(dirs := s.dirs[n := content], others := s.others + set sub | sub in content.subdirs ::
      InDirectory(AtVersion(n), sub))
  }

  // ---------- rollback ----------

  /** The version argument: none, or a name under the service directory. The command line passes it on unchecked. */
  datatype Target = Default | Named(link: Link)

  datatype RollbackError = NoPrevious | VersionNotFound

  /** `ln -sfn` refuses the empty text, and the link stays as it was. */
  function Relink(was: Link, text: Option<Link>): Link { if text.Some? then text.value else was }

  function Rollback(s: Service, target: Target): Result<Service, RollbackError> {
    var previous := Relink(s.previous, ReadPath(s, CurrentLink, 2));
    match target
    case Named(l) =>
      if Follow(s, l, 2).None? then Err(VersionNotFound) else Ok(s.(current := l, previous := previous))
    case Default =>
      if Previous(s).None? then Err(NoPrevious)
      else Ok(s.(current := LinkTo(Previous(s).value), previous := previous))
  }

  // ---------- in place ----------

  class ServiceDir {
    var dirs: map<nat, Content>
    var others: set<string>
    var current: Link
    var previous: Link

    function Value(): Service
      reads this
    {
      Service(dirs, others, current, previous)
    }

    constructor ()
      ensures Value() == EMPTY
    {
      dirs, others, current, previous := map[], {".", ".."}, Nowhere, Nowhere;
    }

    method UploadAndDeploy(listed: bool, outcome: Outcome, content: Content) returns (version: nat)
      modifies this
      ensures Value() == Deploy(old(Value()), listed, outcome, content)
      ensures version == NextVersion(old(dirs).Keys, listed)
    {
      version := NextVersion(dirs.Keys, listed);
      if outcome == NoSession {
        return;
      }
      var written := if outcome.PartlyExtracted? then outcome.partial else content;
      dirs := dirs[version := written];
      others := others + set sub | sub in written.subdirs :: InDirectory(AtVersion(version), sub);
      if outcome == Linked {
        previous := CurrentLink;
        current := Version(version);
      }
    }

    method RollbackTo(target: Target) returns (error: Option<RollbackError>)
      modifies this
      ensures match Rollback(old(Value()), target)
              case Ok(s) => Value() == s && error == None
              case Err(e) => Value() == old(Value()) && error == Some(e)
    {
      var was := ReadPath(Value(), CurrentLink, 2);
      var next: Link;
      if target.Named? {
        if Follow(Value(), target.link, 2).None? {
          return Some(VersionNotFound);
        }
        next := target.link;
      } else {
        var prior := Previous(Value());
        if prior.None? {
          return Some(NoPrevious);
        }
        next := LinkTo(prior.value);
      }
      current := next;
      if was.Some? {
        previous := was.value;
      }
      return None;
    }
  }

  // ---------- versions ----------

  lemma NextIsGreatest(dirs: set<nat>)
    ensures forall m :: m in dirs ==> m < NextVersion(dirs, true)
  {
    if dirs != {} {
      HasGreatest(dirs);
    }
  }

  ghost predicate ContentsKept(a: Service, b: Service) {
    forall n :: n in a.dirs ==> n in b.dirs && b.dirs[n] == a.dirs[n]
  }

  /**
   A deploy that writes a directory writes a new one, above all others, when the listing call worked; when it failed,
   the directory is version 1, and an existing version 1 is overwritten.
   */
  lemma DeployWritesFresh(s: Service, listed: bool, outcome: Outcome, content: Content)
    requires outcome != NoSession
    ensures NextVersion(s.dirs.Keys, listed) !in s.dirs <==> listed || 1 !in s.dirs
    ensures listed ==> forall m :: m in s.dirs ==> m < NextVersion(s.dirs.Keys, listed)
    ensures listed || 1 !in s.dirs ==> ContentsKept(s, Deploy(s, listed, outcome, content))
    ensures var n := NextVersion(s.dirs.Keys, listed);
            if listed && s.dirs != map[] then n - 1 in s.dirs else n == 1
  {
    NextIsGreatest(s.dirs.Keys);
    assert s.dirs == map[] ==> 1 !in s.dirs;
  }

  /**
   What an upload leaves: the content, or the part of it that arrived, in the next version's directory and nowhere else;
   the links as they were, unless the last step was reached, and then `current` is the new version.
   */
  lemma DeployLeaves(s: Service, listed: bool, outcome: Outcome, content: Content)
    ensures var t, n := Deploy(s, listed, outcome, content), NextVersion(s.dirs.Keys, listed);
            && (outcome == NoSession ==> t == s)
            && (outcome != NoSession ==>
                  n in t.dirs && t.dirs[n] == (if outcome.PartlyExtracted? then outcome.partial else content)
                  && forall m :: m != n ==> (m in t.dirs <==> m in s.dirs) && (m in s.dirs ==> t.dirs[m] == s.dirs[m]))
            && (outcome != Linked ==> t.current == s.current && t.previous == s.previous)
            && (outcome == Linked ==> Current(t) == Some(AtVersion(n)) && Previous(t) == Some(AtVersion(n)))
  {
    var t := Deploy(s, listed, outcome, content);
    if outcome == Linked {
      assert Previous(t) == Follow(t, t.current, 1);
    }
  }

  /**
   A directory inside a version is accepted by its name: after the first upload, `v1/` and the name of one of its parts.
   */
  lemma SubdirectoryIsAccepted(content: Content, sub: string)
    requires sub in content.subdirs
    ensures var s := Deploy(EMPTY, true, Linked, content);
            var r := Rollback(s, Named(Directory("v1/" + sub)));
            r.Ok? && Current(r.value) == Some(Elsewhere("v1/" + sub))
  {
    assert Dec(1) == "1";
    assert InDirectory(AtVersion(1), sub) == "v1/" + sub;
  }

  /**
   A rollback is refused if and only if what it asks for is no directory, and the error says which kind of request it
   was.
   */
  lemma RollbackRefuses(s: Service, target: Target)
    ensures Rollback(s, target).Err?
            <==> if target == Default then Previous(s).None? else Follow(s, target.link, 2).None?
    ensures Rollback(s, target).Err? ==>
            Rollback(s, target).error == if target == Default then NoPrevious else VersionNotFound
  {
    hide ReadPath;
  }

  /** A concrete overwrite: one version exists, the listing call fails, and the next upload replaces it. */
  lemma FailedListingOverwrites(a: Content, b: Content)
    requires a != b
    ensures var s := Deploy(EMPTY, true, Linked, a);
            s.dirs == map[1 := a] && !ContentsKept(s, Deploy(s, false, Linked, b))
  {
    var s := Deploy(EMPTY, true, Linked, a);
    assert 1 in s.dirs && s.dirs[1] == a;
    assert Deploy(s, false, Linked, b).dirs[1] == b;
  }

  // ---------- links over runs ----------

  datatype Op = DoDeploy(listed: bool, outcome: Outcome, content: Content) | DoRollback(target: Target)

  function Step(s: Service, op: Op): Service {
    match op
    case DoDeploy(listed, outcome, content) => Deploy(s, listed, outcome, content)
    case DoRollback(target) => (match Rollback(s, target) case Ok(t) => t case Err(_) => s)
  }

  function After(s: Service, ops: seq<Op>): Service {
    if ops == [] then s else Step(After(s, ops[..|ops| - 1]), ops[|ops| - 1])
  }

  /**
   The rollback requests that cannot leave the versions: none given, a name of the form vN, or the `previous` link.
   */
  predicate Allowed(op: Op) {
    op.DoRollback? ==> op.target == Default || op.target.link.Version? || op.target.link == PreviousLink
  }

  predicate IsVersion(p: Option<Place>) { p.Some? && p.value.AtVersion? }

  /** Links as deploys and those rollbacks leave them: no directory but the versions. */
  predicate Plain(l: Link) { l == Nowhere || l.Version? || l == CurrentLink || l == PreviousLink }

  /** `current` resolves to an existing version, once it is linked; before that, `previous` names no version either. */
  ghost predicate Resolving(s: Service) {
    && Plain(s.current) && Plain(s.previous)
    && (if s.current == Nowhere then !s.previous.Version? else IsVersion(Current(s)))
  }

  lemma PlainLeadsToVersions(s: Service, l: Link, hops: nat)
    requires Plain(s.current) && Plain(s.previous) && Plain(l)
    ensures Follow(s, l, hops).Some? ==> IsVersion(Follow(s, l, hops))
    decreases hops
  {
    if hops > 0 {
      PlainLeadsToVersions(s, s.current, hops - 1);
      PlainLeadsToVersions(s, s.previous, hops - 1);
    }
  }

  lemma FollowExists(s: Service, l: Link, hops: nat)
    ensures Follow(s, l, hops).Some? ==>
            match Follow(s, l, hops).value case AtVersion(n) => n in s.dirs case Elsewhere(path) => path in s.others
    decreases hops
  {
    if hops > 0 {
      FollowExists(s, s.current, hops - 1);
      FollowExists(s, s.previous, hops - 1);
    }
  }

  lemma GrowKeeps(s: Service, t: Service, l: Link, hops: nat)
    requires t.current == s.current && t.previous == s.previous && s.dirs.Keys <= t.dirs.Keys && s.others <= t.others
    ensures Follow(s, l, hops).Some? ==> Follow(t, l, hops) == Follow(s, l, hops)
    decreases hops
  {
    if hops > 0 {
      GrowKeeps(s, t, s.current, hops - 1);
      GrowKeeps(s, t, s.previous, hops - 1);
    }
  }

  lemma DeployKeepsResolving(s: Service, listed: bool, outcome: Outcome, content: Content)
    requires Resolving(s)
    ensures Resolving(Deploy(s, listed, outcome, content))
  {
    var t := Deploy(s, listed, outcome, content);
    if outcome != Linked {
      GrowKeeps(s, t, s.current, 2);
    }
  }

  /** The directory `current` leads to is what `readlink -f` prints for it. */
  lemma CurrentReads(s: Service)
    requires Current(s).Some?
    ensures ReadPath(s, CurrentLink, 2) == Some(LinkTo(Current(s).value))
    ensures forall t: Service, hops: nat :: t.dirs == s.dirs && t.others == s.others ==>
              Follow(t, LinkTo(Current(s).value), hops) == Current(s)
  {
    FollowExists(s, s.current, 2);
  }

  /**
   Where a rollback leads, for every request that the script accepts; `previous` always leads to where `current` did.
   */
  lemma WhereRollbackLeads(s: Service, target: Target)
    requires Current(s).Some? && Rollback(s, target).Ok?
    ensures var t := Rollback(s, target).value;
            && Previous(t) == Current(s)
            && Current(t) == match target
                             case Default => Previous(s)
                             case Named(l) => match l
                               case Version(n) => Some(AtVersion(n))
                               case Directory(path) => Some(Elsewhere(path))
                               case PreviousLink => Current(s)
                               case BelowPrevious(sub) => Below(s, Current(s), sub)
                               case _ => None
  {
    var t := Rollback(s, target).value;
    CurrentReads(s);
    FollowExists(s, s.previous, 2);
    assert t.previous == LinkTo(Current(s).value);
    if t.current == CurrentLink {
      assert Follow(t, t.current, 2) == Follow(t, t.current, 1) == Follow(t, t.current, 0);
    }
  }

  /**
   A rollback the script accepts leaves `current` on a version if and only if it asks for the default, and that is a
   version, for a version, or for `previous`. It leaves `current` unresolvable if and only if it names `current`,
   something below `current`, or something below `previous` that the version rolled back from does not have.
   */
  lemma RollbackStaysOnVersion(s: Service, target: Target)
    requires IsVersion(Current(s)) && Rollback(s, target).Ok?
    ensures var t := Rollback(s, target).value;
            && (IsVersion(Current(t)) <==>
                (target == Default && IsVersion(Previous(s)))
                  || (target.Named? && (target.link.Version? || target.link == PreviousLink)))
            && (Current(t).None? <==>
                target.Named? && (ThroughCurrent(target.link) ||
                                  (target.link.BelowPrevious?
                                    && InDirectory(Current(s).value, target.link.sub) !in s.others)))
  {
    WhereRollbackLeads(s, target);
    if target.Named? && target.link == Nowhere {
      assert false;
    }
  }

  /**
   A concrete departure: the name `.` is a directory, so it is accepted, and `current` is the service directory itself.
   */
  lemma DotIsAccepted(content: Content)
    ensures var s := Deploy(EMPTY, true, Linked, content);
            var r := Rollback(s, Named(Directory(".")));
            r.Ok? && Current(r.value) == Some(Elsewhere("."))
  {
  }

  lemma RollbackKeepsResolving(s: Service, target: Target)
    requires Resolving(s) && Allowed(DoRollback(target))
    ensures Resolving(Step(s, DoRollback(target)))
  {
    PlainLeadsToVersions(s, s.previous, 2);
    if Current(s).Some? && Rollback(s, target).Ok? {
      RollbackStaysOnVersion(s, target);
      CurrentReads(s);
    } else if s.current == Nowhere && target.Named? && target.link.Version? {
      assert ReadPath(s, CurrentLink, 2) == Some(CurrentLink);
    }
  }

  /** One accepted rollback keeps the links in order if and only if it is of the allowed kind. */
  lemma OnlyAllowedKeepResolving(s: Service, target: Target)
    requires Resolving(s) && s.current != Nowhere && Rollback(s, target).Ok?
    ensures Resolving(Step(s, DoRollback(target))) <==> Allowed(DoRollback(target))
  {
    PlainLeadsToVersions(s, s.previous, 2);
    RollbackStaysOnVersion(s, target);
    RollbackKeepsLinked(s, target);
    if Allowed(DoRollback(target)) {
      RollbackKeepsResolving(s, target);
    }
  }

  lemma RollbackKeepsLinked(s: Service, target: Target)
    requires Rollback(s, target).Ok?
    ensures Rollback(s, target).value.current != Nowhere
  {
  }

  lemma StepKeepsResolving(s: Service, op: Op)
    requires Resolving(s) && Allowed(op)
    ensures Resolving(Step(s, op))
  {
    match op {
      case DoDeploy(listed, outcome, content) => DeployKeepsResolving(s, listed, outcome, content);
      case DoRollback(target) => RollbackKeepsResolving(s, target);
    }
  }

  lemma NothingDeployed()
    ensures Resolving(EMPTY)
  {
  }

  /**
   In every run of deploys and allowed rollbacks from the empty service directory, or from any state in order, `current`
   keeps resolving, without cycles, to an existing version.
   */
  lemma {:induction false} LinksOverRuns(s: Service, ops: seq<Op>)
    requires s == EMPTY || Resolving(s)
    requires forall op :: op in ops ==> Allowed(op)
    ensures Resolving(After(s, ops))
  {
    hide Step, Resolving;
    if ops == [] {
      NothingDeployed();
    } else {
      var n := |ops| - 1;
      assert ops[n] in ops && forall op :: op in ops[..n] ==> op in ops;
      LinksOverRuns(s, ops[..n]);
      StepKeepsResolving(After(s, ops[..n]), ops[n]);
    }
  }

  // ---------- rollback pairs ----------

  lemma RollbackPair(s: Service)
    requires Current(s).Some? && Previous(s).Some?
    ensures var r := Rollback(s, Default);
            r.Ok? && Current(r.value) == Previous(s) && Previous(r.value) == Current(s) && r.value.dirs == s.dirs
  {
    WhereRollbackLeads(s, Default);
  }

  /** Two default rollbacks are the identity on the resolved pair. */
  lemma TwoRollbacks(s: Service)
    requires Current(s).Some? && Previous(s).Some?
    ensures var t := After(s, [DoRollback(Default), DoRollback(Default)]);
            Current(t) == Current(s) && Previous(t) == Previous(s)
  {
    hide Rollback, Current, Previous;
    var op := DoRollback(Default);
    assert [op, op][..1] == [op] && [op][..0] == [];
    assert After(s, []) == s;
    assert After(s, [op]) == Step(s, op);
    RollbackPair(s);
    RollbackPair(Step(s, op));
  }

  /** Rolling back to a version and then back by default returns to the version the run started from. */
  lemma ThereAndBack(s: Service, n: nat)
    requires Current(s).Some? && n in s.dirs
    ensures var t := After(s, [DoRollback(Named(Version(n))), DoRollback(Default)]);
            Current(t) == Current(s) && Previous(t) == Some(AtVersion(n))
  {
    var go, back := DoRollback(Named(Version(n))), DoRollback(Default);
    assert [go, back][..1] == [go] && [go][..0] == [];
    assert After(s, []) == s;
    var m := Step(s, go);
    assert After(s, [go]) == m;
    WhereRollbackLeads(s, Named(Version(n)));
    RollbackPair(m);
  }

  /**
   Right after a deploy `previous` is an alias of `current`: a default rollback stays on the version just deployed.
   */
  lemma RollbackAfterDeployStays(s: Service, listed: bool, content: Content)
    ensures var t := Deploy(s, listed, Linked, content);
            var r := Rollback(t, Default);
            r.Ok? && Current(r.value) == Current(t) == Some(AtVersion(NextVersion(s.dirs.Keys, listed)))
  {
    var t := Deploy(s, listed, Linked, content);
    assert Previous(t) == Follow(t, t.current, 1);
  }

  // ---------- versions over runs ----------

  ghost predicate Listed(op: Op) { op.DoDeploy? ==> op.listed }

  /** While the listing call works, no directory ever written changes, and each written number exceeds all before it. */
  lemma {:induction false} VersionsOverRuns(s: Service, ops: seq<Op>)
    requires forall op :: op in ops ==> Listed(op)
    ensures ContentsKept(s, After(s, ops))
    ensures forall n :: n in After(s, ops).dirs && n !in s.dirs ==> forall m :: m in s.dirs ==> m < n
  {
    hide Step;
    if ops != [] {
      var k := |ops| - 1;
      assert ops[k] in ops && forall op :: op in ops[..k] ==> op in ops;
      VersionsOverRuns(s, ops[..k]);
      StepVersions(After(s, ops[..k]), ops[k]);
    }
  }

  lemma StepVersions(s: Service, op: Op)
    requires Listed(op)
    ensures ContentsKept(s, Step(s, op))
    ensures forall n :: n in Step(s, op).dirs && n !in s.dirs ==> forall m :: m in s.dirs ==> m < n
  {
    if op.DoDeploy? && op.outcome != NoSession {
      DeployWritesFresh(s, true, op.outcome, op.content);
    }
  }
}
