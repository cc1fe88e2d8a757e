/**
 What a watchdog run looks for, repairs and reports, said of the sets, the files and the rules themselves.
 */
module Repair {
  import opened Wrappers
  import opened Text
  import opened Cidr
  import opened Nft
  import opened Registry
  import opened Policy
  import opened State
  import opened Refreshing
  import opened Watchdog
  import opened Runs
  import opened Operators

  // ---------- what counts as a divergence ----------

  /** Each line of an element file, up to its mask, lies in some element of the set. */
  ghost predicate Present(sets: Sets, name: SetName, file: Option<seq<string>>) {
    file.Some? ==> forall line :: line in file.value && TrimSpace(line) != "" ==>
      name in sets && ParseAddr(Split(TrimSpace(line), '/')[0]).Some?
      && exists t :: t in sets[name] && Denotes(t, ParseAddr(Split(TrimSpace(line), '/')[0]).value)
  }

  lemma PresentIs(sets: Sets, name: SetName, file: Option<seq<string>>)
    ensures AdminComplete(sets, name, file) <==> Present(sets, name, file)
  {
    hide Denotes, Trim, ParseAddr, Split;
  }

  /** Four sets, both element files in them, a state file of the last 25 hours, a rule for every registered port. */
  ghost predicate InOrder(s: Node, es: seq<Entry>, now: int) {
    && Allow4 in s.sets && Allow6 in s.sets && Admin4 in s.sets && Admin6 in s.sets
    && Present(s.sets, Admin4, s.admin4) && Present(s.sets, Admin6, s.admin6)
    && s.lastSync.Some? && now - s.lastSync.value <= 90000
    && forall e :: e in es ==> HasRule(s.exposed, e.port)
  }

  ghost predicate HasRule(exposed: Chain, port: nat) {
    exists r :: r in exposed && r.dport.Some? && r.dport.value.ports == [port]
  }

  lemma {:induction false} NothingMissingIff(es: seq<Entry>, exposed: Chain)
    ensures MissingPorts(es, exposed) == [] <==> forall e :: e in es ==> HasRule(exposed, e.port)
  {
    hide PortRules, HasRule;
    if es != [] {
      var n := |es| - 1;
      NothingMissingIff(es[..n], exposed);
      HasPortRule(exposed, es[n].port);
      assert es == es[..n] + [es[n]];
      assert forall e :: e in es <==> e in es[..n] || e == es[n];
    }
  }

  lemma HasPortRule(exposed: Chain, port: nat)
    ensures PortRules(exposed, port) != [] <==> HasRule(exposed, port)
  {
    PortRulesIn(exposed, port);
    if PortRules(exposed, port) != [] {
      assert PortRules(exposed, port)[0] in PortRules(exposed, port);
    }
  }

  /** Over a written registry the watchdog sees a divergence if and only if something of that is not so. */
  lemma DivergenceMeans(s: Node, es: seq<Entry>, now: int)
    requires s.registry == RenderAll(es) && AllValid(es)
    ensures Healthy(s, now) <==> InOrder(s, es, now)
  {
    hide RenderAll, AllValid, Missing, MissingPorts, Present, AdminComplete, Decs;
    MissingOfRendered(es, s.exposed);
    DecsNone(MissingPorts(es, s.exposed));
    NothingMissingIff(es, s.exposed);
    PresentIs(s.sets, Admin4, s.admin4);
    PresentIs(s.sets, Admin6, s.admin6);
  }

  lemma DecsNone(ports: seq<nat>)
    ensures Decs(ports) == [] <==> ports == []
  {
    hide Dec;
  }

  // ---------- the sets after a run ----------

  ghost predicate AllFour(sets: Sets) { Allow4 in sets && Allow6 in sets && Admin4 in sets && Admin6 in sets }

  lemma RecreatedSets(sets: Sets)
    ensures AllFour(Recreate(sets))
    ensures forall name :: name in sets ==> Recreate(sets)[name] == sets[name]
    ensures forall name :: name !in sets && name in Recreate(sets) ==> Recreate(sets)[name] == {}
  {
  }

  /** A diverged node's refresh succeeds exactly on four texts or more that nft takes, whatever sets were missing. */
  lemma RefreshSucceedsIff(s: Node, w: WatchEnv)
    ensures RefreshSucceeds(s, w) <==> |Accepted4(w.text)| + |Accepted6(w.text)| >= 4 && w.loads
  {
    hide HealSet, Accepted4, Accepted6, Recreate, SelfHeal;
    var base := s.(sets := Recreate(s.sets));
    RecreatedSets(s.sets);
    SelfHealKeeps(base);
  }

  /**
   After a run on a diverged node all four sets exist; the provider sets hold exactly what was fetched, if that was
   enough, with the sync time set, and otherwise what they held, or nothing where they were missing; no admin element is
   lost.
   */
  lemma RunRestoresSets(s: Node, w: WatchEnv)
    requires !Healthy(s, w.now)
    ensures var t := Watch(s, w);
            && AllFour(t.sets)
            && (forall n, x ::
              (n == Admin4 || n == Admin6) && Had(s.sets, n, x) ==> x in t.sets[n])
              && (if Enough(w.text, w.loads)
                then t.sets[Allow4] == Accepted4(w.text) && t.sets[Allow6] == Accepted6(w.text)
                  && t.lastSync == Some(w.now)
                else t.lastSync == s.lastSync
                     && forall n, x :: n == Allow4 || n == Allow6 ==> (x in t.sets[n] <==> Had(s.sets, n, x)))
  {
    hide Accepted4, Accepted6, Recreate, Healthy, Watch, Refresh, SelfHeal;
    var base := s.(sets := Recreate(s.sets));
    RecreatedSets(s.sets);
    RepairSets(s, w);
    RefreshIsAllOrNothing(base, w.text, w.loads, w.now);
    RepairSync(s, w);
    assert RefreshOk(base, w.text, w.loads) <==> Enough(w.text, w.loads);
  }

  lemma RepairSync(s: Node, w: WatchEnv)
    requires !Healthy(s, w.now)
    ensures Watch(s, w).lastSync == Refresh(s.(sets := Recreate(s.sets)), w.text, w.loads, w.now).lastSync
  {
    hide Refresh, RefreshSucceeds, Healthy, StillBroken, RestoreAll, Missing, Recreate;
  }

  /** A missing or stale state file alone makes the run refresh. */
  lemma StaleRefreshes(s: Node, w: WatchEnv)
    requires s.lastSync.None? || w.now - s.lastSync.value > 90000
    requires Enough(w.text, w.loads)
    ensures var t := Watch(s, w);
            AllFour(t.sets) && t.sets[Allow4] == Accepted4(w.text) && t.sets[Allow6] == Accepted6(w.text)
            && t.lastSync == Some(w.now)
  {
    hide AdminComplete, Missing, Accepted4, Accepted6, Watch;
    RunRestoresSets(s, w);
  }

  // ---------- reports ----------

  /** An hour since the last alert with this digest, or there was none. */
  ghost predicate Due(s: Node, w: WatchEnv) { w.now - LastNotified(s.notifyFile, w.digest) >= 3600 }

  /** The ports that had no rule before the run have one after it. */
  ghost predicate PortsBack(before: Node, after: Node, es: seq<Entry>) {
    forall e :: e in es && PortRules(before.exposed, e.port) == [] ==> PortRules(after.exposed, e.port) != []
  }

  lemma {:induction false} MissingIs(es: seq<Entry>, exposed: Chain)
    ensures forall q ::
              q in MissingPorts(es, exposed)
              <==> PortRules(exposed, q) == [] && exists e :: e in es && e.port == q
  {
    hide PortRules;
    if es != [] {
      var n := |es| - 1;
      MissingIs(es[..n], exposed);
      assert es == es[..n] + [es[n]];
      assert forall e :: e in es <==> e in es[..n] || e == es[n];
    }
  }

  lemma {:induction false} DecsAt(ports: seq<nat>, i: nat)
    requires i < |ports|
    ensures |Decs(ports)| == |ports| && Decs(ports)[i] == Dec(ports[i])
  {
    hide Dec;
    if i < |ports| - 1 {
      DecsAt(ports[..|ports| - 1], i);
    }
    if |ports| > 1 {
      DecsAt(ports[..|ports| - 1], 0);
    }
  }

  lemma SeenAgain(es: seq<Entry>, before: Chain, after: Chain)
    requires AllValid(es)
    ensures var missing := Missing(RenderAll(es), before);
            (exists i :: 0 <= i < |missing| && !PortSeen(after, missing[i])) <==>
            exists e :: e in es && PortRules(before, e.port) == [] && PortRules(after, e.port) == []
  {
    hide RenderAll, Missing, MissingPorts, Decs, Dec, PortRules, PortSeen, ValidEntry;
    var ports := MissingPorts(es, before);
    MissingOfRendered(es, before);
    MissingIs(es, before);
    DecsNone(ports);
    if ports != [] {
      DecsAt(ports, 0);
    }
    forall i | 0 <= i < |ports|
      ensures |Decs(ports)| == |ports| && (PortSeen(after, Decs(ports)[i]) <==> PortRules(after, ports[i]) != [])
    {
      DecsAt(ports, i);
      SeenIffRules(after, ports[i]);
    }
    if e :| e in es && PortRules(before, e.port) == [] && PortRules(after, e.port) == [] {
      assert e.port in ports;
      var i :| 0 <= i < |ports| && ports[i] == e.port;
      assert !PortSeen(after, Decs(ports)[i]);
    }
    if i :| 0 <= i < |Decs(ports)| && !PortSeen(after, Decs(ports)[i]) {
      assert ports[i] in ports;
    }
  }

  /**
   Which alert a run sends: none on a node in order or within the hour; FAILED when the refresh did not succeed; else OK
   if and only if now the four sets exist, the element files are in them, and every registered port without rules has
   some again.
   */
  lemma AlertTells(s: Node, es: seq<Entry>, w: WatchEnv)
    requires s.registry == RenderAll(es) && AllValid(es)
    ensures var t := Watch(s, w);
            if InOrder(s, es, w.now) || !Due(s, w) then t.alerts == s.alerts
            else
              var kind := if !Enough(w.text, w.loads) then RepairFailed
                          else if AllFour(t.sets) && Present(t.sets, Admin4, s.admin4)
                            && Present(t.sets, Admin6, s.admin6)
                                  && PortsBack(s, t, es) then Repaired
                          else Incomplete;
              t.alerts == s.alerts + [Alert(kind, w.digest, w.now)]
  {
    hide RenderAll, AllValid, Missing, Present, AdminComplete, Refresh, RefreshSucceeds, Healthy, Restored, Accepted4;
    hide Accepted6, PortSeen, PortRules, InOrder, LastNotified, Recreate;
    DivergenceMeans(s, es, w.now);
    RefreshSucceedsIff(s, w);
    var base := s.(sets := Recreate(s.sets));
    RefreshKeepsRules(base, w.text, w.loads, w.now);
    RestoredFiles(s, w);
    var r := Restored(s, w);
    SeenAgain(es, s.exposed, r.exposed);
    PresentIs(r.sets, Admin4, s.admin4);
    PresentIs(r.sets, Admin6, s.admin6);
  }

  lemma RestoredFiles(s: Node, w: WatchEnv)
    ensures var r := Restored(s, w);
            r.alerts == s.alerts && r.notifyFile == s.notifyFile && r.admin4 == s.admin4 && r.admin6 == s.admin6
  {
    hide Refresh, Missing, RestoreAll, Recreate;
    RefreshKeepsRules(s.(sets := Recreate(s.sets)), w.text, w.loads, w.now);
  }
}
