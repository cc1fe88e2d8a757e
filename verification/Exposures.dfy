/**
 What an exposure does for packets, from whatever table it starts: the words of the command line on one side, the
 verdict of the live chains on the other.
 */
module Exposures {
  import opened Wrappers
  import opened Text
  import opened Cidr
  import opened Nft
  import opened Registry
  import opened Policy
  import opened State
  import opened Runs
  import opened Theorems
  import opened Rollback

  // ---------- when it succeeds ----------

  /** The requests that are accepted on a node with the admin set. */
  ghost predicate Acceptable(port: int, proto: string, scope: string, ips: seq<string>) {
    && 1 <= port <= 65535 && port != 8472 && port != 2379 && port != 2380 && port != 10250
    && (proto == "tcp" || proto == "udp")
    && (scope == "admin" || scope == "global" || scope == "traefik"
        || (scope == "ips" && ips != [] && forall ip :: ip in ips ==> Meaning(ip).Some?))
  }

  lemma {:induction false} NoneBad(ips: seq<string>)
    ensures FirstBad(ips).None? <==> forall ip :: ip in ips ==> Meaning(ip).Some?
  {
    hide Meaning;
    if ips != [] {
      NoneBad(ips[..|ips| - 1]);
    }
  }

  /** An exposure succeeds if and only if the request is one of those and the admin set exists. */
  lemma ExposeSucceeds(s: Node, port: int, proto: string, scope: string, ips: seq<string>, stamp: string)
    ensures Expose(s, port, proto, scope, ips, stamp).Ok? <==> Acceptable(port, proto, scope, ips) && Admin4 in s.sets
  {
    hide Meaning, FirstBad, Normal, ApplyEntry;
    NoneBad(ips);
  }

  /** Which request is refused how: the first check that fails, and for addresses the first bad one. */
  lemma RefusalTells(s: Node, port: int, proto: string, scope: string, ips: seq<string>, stamp: string)
    requires Expose(s, port, proto, scope, ips, stamp).Err?
    ensures var why := Expose(s, port, proto, scope, ips, stamp).error;
            if port < 1 || port > 65535 then why == PortOutOfRange
            else if port in {8472, 2379, 2380, 10250} then why == PeerPort
            else if proto != "tcp" && proto != "udp" then why == BadProto
            else if scope != "admin" && scope != "global" && scope != "traefik" && scope != "ips"
              then why == UnknownScope
            else if scope == "ips" && ips == [] then why == NoIps
            else if scope == "ips" && exists ip :: ip in ips && Meaning(ip).None? then
              exists i ::
                0 <= i < |ips| && Meaning(ips[i]).None? && why == BadIp(ips[i])
                && forall j :: 0 <= j < i ==> Meaning(ips[j]).Some?
            else why == NotInstalled
  {
    hide Meaning, FirstBad, Normal, ApplyEntry;
    NoneBad(ips);
    FirstBadAt(ips);
  }

  lemma {:induction false} FirstBadAt(ips: seq<string>)
    ensures FirstBad(ips).Some? ==>
            exists i ::
              0 <= i < |ips| && Meaning(ips[i]).None? && FirstBad(ips) == Some(ips[i])
              && forall j :: 0 <= j < i ==> Meaning(ips[j]).Some?
  {
    hide Meaning;
    if ips != [] {
      var n := |ips| - 1;
      FirstBadAt(ips[..n]);
      NoneBad(ips[..n]);
      if FirstBad(ips[..n]).Some? {
        var i :| 0 <= i < n && Meaning(ips[..n][i]).None? && FirstBad(ips[..n]) == Some(ips[..n][i])
          && forall j :: 0 <= j < i ==> Meaning(ips[..n][j]).Some?;
        assert forall j :: 0 <= j < i ==> ips[j] == ips[..n][j];
        assert ips[i] == ips[..n][i];
      } else {
        assert forall j :: 0 <= j < n ==> ips[j] in ips[..n];
      }
    }
  }

  /** The entry an accepted request stands for. */
  lemma EntryOfRequest(port: int, proto: string, scope: string, ips: seq<string>, stamp: string)
    requires CheckExpose(port, proto, scope, ips, stamp).Ok?
    ensures var e := CheckExpose(port, proto, scope, ips, stamp).value;
            && e.port == port && e.transport == (if proto == "udp" then Udp else Tcp) && e.stamp == stamp
            && (scope == "admin" ==> e.scope == ScopeAdmin) && (scope == "global" ==> e.scope == ScopeGlobal)
            && (scope == "traefik" ==> e.scope == ScopeTraefik)
            && (scope == "ips" ==> e.scope == ScopeIps && e.ips == Normal(ips))
            && (proto == "tcp" || proto == "udp")
            && (scope == "admin" || scope == "global" || scope == "traefik" || scope == "ips")
  {
    hide FirstBad, Normal;
  }

  // ---------- what the exposed chain says afterwards ----------

  lemma SafeIsPerPort(c: Chain)
    requires AllExposable(c)
    ensures PerPort(c)
  {
  }

  /** Whatever the chain held before: on its port, the new entry alone speaks. */
  lemma ExposedVerdict(s: Node, e: Entry, p: Packet)
    requires Safe(s) && p.dport == e.port
    ensures Run(ApplyEntry(s, e).exposed, [], s.sets, p) == EntrySays(e, s.sets, p)
  {
    hide Run, EntrySays, BlockOf, RemovePort, PortRules, Exposable;
    SafeIsPerPort(s.exposed);
    PerPortAfterExpose(s.exposed, e);
    var t := ApplyEntry(s, e);
    OnlyOwnPort(t.exposed, s.sets, p);
    RemoveAndAppend(s.exposed, e, p.dport);
    BlockImplementsEntry(e, s.sets, p);
  }

  // ---------- what the base chains do with it ----------

  /** Every jump of the chain is taken by every packet. */
  ghost predicate OpenJumps(c: Chain) {
    forall r :: r in c && r.action == JumpExposed ==> r == Rule(Any, None, Anyone, JumpExposed)
  }

  ghost predicate Jumps(c: Chain) { exists r :: r in c && r.action == JumpExposed }

  /** With a jump in front where there was none: the exposed chain's word counts. */
  lemma JumpCounts(before: Chain, after: Chain, ex: Chain, sets: Sets, p: Packet)
    requires NoDrop(before) && OpenJumps(before)
    requires after == if Jumps(before) then before else [Rule(Any, None, Anyone, JumpExposed)] + before
    ensures Run(ex, [], sets, p).Accepted? ==> LetsIn(after, ex, sets, p)
    ensures !Jumps(before) && Run(ex, [], sets, p).Dropped? ==> !LetsIn(after, ex, sets, p)
    ensures !Jumps(before) && Run(ex, [], sets, p).NoMatch? ==>
            (LetsIn(after, ex, sets, p) <==> LetsIn(before, ex, sets, p))
  {
    var j := Rule(Any, None, Anyone, JumpExposed);
    assert Matches(j, sets, p);
    if Run(ex, [], sets, p).Accepted? {
      assert NoDrop(after) && j in after;
      JumpReached(after, j, ex, sets, p);
    }
    if !Jumps(before) {
      assert after[0] == j && after[1..] == before;
    }
  }

  lemma AppliedChains(s: Node, e: Entry)
    ensures var t, j := ApplyEntry(s, e), [Rule(Any, None, Anyone, JumpExposed)];
            && t.input == (if Jumps(s.input) then s.input else j + s.input)
            && t.forward == (if Jumps(s.forward) then s.forward else j + s.forward)
            && t.sets == s.sets
  {
    hide RemovePort, BlockOf, DropLines, RenderLine, KeyPrefix;
  }

  lemma ExposeApplies(s: Node, port: int, proto: string, scope: string, ips: seq<string>, stamp: string)
    requires Expose(s, port, proto, scope, ips, stamp).Ok?
    ensures CheckExpose(port, proto, scope, ips, stamp).Ok?
    ensures Expose(s, port, proto, scope, ips, stamp).value ==
            ApplyEntry(s, CheckExpose(port, proto, scope, ips, stamp).value)
  {
    hide CheckExpose, ApplyEntry;
  }

  /**
   An exposure takes effect on every table whose base chains do not drop by themselves and whose jumps are unguarded,
   also on one without any jump: what the entry accepts is let in and forwarded; and where the chain had no jump before,
   what the entry drops is refused, and what it says nothing about is treated as before.
   */
  lemma ExposureTakesEffect(s: Node, port: int, proto: string, scope: string, ips: seq<string>, stamp: string,
      p: Packet)
    requires Safe(s) && OpenJumps(s.input) && OpenJumps(s.forward) && p.dport == port
    requires Expose(s, port, proto, scope, ips, stamp).Ok?
    ensures CheckExpose(port, proto, scope, ips, stamp).Ok?
    ensures var t := Expose(s, port, proto, scope, ips, stamp).value;
            var says := EntrySays(CheckExpose(port, proto, scope, ips, stamp).value, t.sets, p);
            && Run(t.exposed, [], t.sets, p) == says
            && (says.Accepted? ==> InputLetsIn(t, p) && ForwardLetsIn(t, p))
            && (says.Dropped? && !Jumps(s.input) ==> !InputLetsIn(t, p))
            && (says.Dropped? && !Jumps(s.forward) ==> !ForwardLetsIn(t, p))
            && (says.NoMatch? && !Jumps(s.input) ==> (InputLetsIn(t, p) <==> LetsIn(s.input, t.exposed, s.sets, p)))
  {
    hide Run, EntrySays, CheckExpose, ApplyEntry, LetsIn, NoDrop, Jumps, OpenJumps, Exposable, Expose;
    ExposeApplies(s, port, proto, scope, ips, stamp);
    var e := CheckExpose(port, proto, scope, ips, stamp).value;
    PortKept(port, proto, scope, ips, stamp);
    var t := ApplyEntry(s, e);
    AppliedChains(s, e);
    ExposedVerdict(s, e, p);
    JumpCounts(s.input, t.input, t.exposed, t.sets, p);
    JumpCounts(s.forward, t.forward, t.exposed, t.sets, p);
  }

  lemma PortKept(port: int, proto: string, scope: string, ips: seq<string>, stamp: string)
    requires CheckExpose(port, proto, scope, ips, stamp).Ok?
    ensures CheckExpose(port, proto, scope, ips, stamp).value.port == port
  {
    hide FirstBad, Normal;
  }

  // ---------- in the words of the command line ----------

  /** The source is an admin: some element of an admin set, of its own family, denotes it. */
  ghost predicate IsAdmin(sets: Sets, a: Addr) {
    if a.v6 then Admin6 in sets && exists t :: t in sets[Admin6] && Denotes(t, a)
    else Admin4 in sets && exists t :: t in sets[Admin4] && Denotes(t, a)
  }

  ghost predicate Named(ips: seq<string>, a: Addr) { exists ip :: ip in ips && Denotes(ip, a) }

  /** Who may pass under a scope, and whether the scope closes the port to everyone else. */
  ghost predicate MayPass(scope: string, ips: seq<string>, sets: Sets, a: Addr) {
    scope == "global" || (scope == "admin" && IsAdmin(sets, a)) || (scope == "ips" && Named(ips, a))
  }

  lemma {:induction false} FamilyNames(ips: seq<string>, v6: bool, a: Addr)
    requires a.v6 == v6
    ensures Named(Family(ips, v6), a) <==> Named(ips, a)
  {
    hide Meaning, NormalizeCIDR;
    if ips != [] {
      var n := |ips| - 1;
      assert ips == ips[..n] + [ips[n]];
      FamilyNames(ips[..n], v6, a);
      NormalizeMeaning(ips[n]);
      NamedStep(ips[..n], ips[n], a);
      if InFamily(ips[n], v6) {
        NamedStep(Family(ips[..n], v6), NormalizeCIDR(ips[n]), a);
      }
    }
  }

  lemma NamedStep(ips: seq<string>, ip: string, a: Addr)
    ensures Named(ips + [ip], a) <==> Named(ips, a) || Denotes(ip, a)
  {
    hide Denotes;
    assert ip in ips + [ip];
    assert forall x :: x in ips ==> x in ips + [ip];
  }

  lemma {:induction false} OtherFamilyNamesNone(ips: seq<string>, v6: bool, a: Addr)
    requires a.v6 != v6
    ensures !Named(Family(ips, v6), a)
  {
    hide Meaning, NormalizeCIDR;
    if ips != [] {
      var n := |ips| - 1;
      OtherFamilyNamesNone(ips[..n], v6, a);
      NormalizeMeaning(ips[n]);
    }
  }

  lemma NormalNames(ips: seq<string>, a: Addr)
    ensures Named(Normal(ips), a) <==> Named(ips, a)
  {
    hide Denotes, Family;
    FamilyNames(ips, a.v6, a);
    OtherFamilyNamesNone(ips, !a.v6, a);
    var f, g := Family(ips, false), Family(ips, true);
    assert forall x :: x in f + g <==> x in f || x in g;
  }

  lemma AdminsHold(sets: Sets, a: Addr)
    ensures SetHolds(sets, Admin4, a) || SetHolds(sets, Admin6, a) <==> IsAdmin(sets, a)
  {
    hide Meaning, InPrefix;
    assert SetHolds(sets, Admin4, a) ==> !a.v6;
    assert SetHolds(sets, Admin6, a) ==> a.v6;
  }

  /** The entry's word, in those terms. */
  lemma EntryMeans(port: int, proto: string, scope: string, ips: seq<string>, stamp: string, sets: Sets, p: Packet)
    requires CheckExpose(port, proto, scope, ips, stamp).Ok? && p.dport == port
    ensures EntrySays(CheckExpose(port, proto, scope, ips, stamp).value, sets, p) ==
            if scope == "traefik" || p.proto != L4(if proto == "udp" then Udp else Tcp) then NoMatch
            else if MayPass(scope, ips, sets, p.src) then Accepted
            else Dropped
  {
    hide CheckExpose, Denotes, Normal, SetHolds, IsAdmin;
    EntryOfRequest(port, proto, scope, ips, stamp);
    AdminsHold(sets, p.src);
    NormalNames(ips, p.src);
  }

  /**
   The words of the command line and the packet: after a successful exposure under `admin`, `global` or `ips`, whoever
   may pass on that port and protocol is let in and forwarded, and on a table that had no jump nobody else is.
   */
  lemma ExposedByName(s: Node, port: int, proto: string, scope: string, ips: seq<string>, stamp: string, p: Packet)
    requires Safe(s) && OpenJumps(s.input) && OpenJumps(s.forward)
    requires Admin4 in s.sets && Acceptable(port, proto, scope, ips) && scope != "traefik"
    requires p.dport == port && p.proto == L4(if proto == "udp" then Udp else Tcp)
    ensures Expose(s, port, proto, scope, ips, stamp).Ok?
    ensures var t := Expose(s, port, proto, scope, ips, stamp).value;
            && (MayPass(scope, ips, s.sets, p.src) ==> InputLetsIn(t, p) && ForwardLetsIn(t, p))
            && (!MayPass(scope, ips, s.sets, p.src) && !Jumps(s.input) ==> !InputLetsIn(t, p))
            && (!MayPass(scope, ips, s.sets, p.src) && !Jumps(s.forward) ==> !ForwardLetsIn(t, p))
  {
    hide Run, EntrySays, CheckExpose, ApplyEntry, LetsIn, Jumps, OpenJumps, Exposable, Expose, MayPass, Acceptable;
    ExposeSucceeds(s, port, proto, scope, ips, stamp);
    ExposureTakesEffect(s, port, proto, scope, ips, stamp, p);
    ExposeKeepsSets(s, port, proto, scope, ips, stamp);
    EntryMeans(port, proto, scope, ips, stamp, s.sets, p);
  }

  lemma ExposeKeepsSets(s: Node, port: int, proto: string, scope: string, ips: seq<string>, stamp: string)
    requires Expose(s, port, proto, scope, ips, stamp).Ok?
    ensures Expose(s, port, proto, scope, ips, stamp).value.sets == s.sets
  {
    hide CheckExpose;
  }
}
