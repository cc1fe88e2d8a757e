/**
 The watchdog's notification cooldown over whole runs.
 */
module Cooldown {
  import opened Wrappers
  import opened Nft
  import opened Registry
  import opened Policy
  import opened State
  import opened Refreshing
  import opened Watchdog
  import opened Peering
  import opened Runs

  /** The watchdog's clock never goes back. */
  ghost predicate ClockForward(ops: seq<Op>) {
    forall i, j :: 0 <= i < j < |ops| && ops[i].DoWatch? && ops[j].DoWatch? ==> ops[i].w.now <= ops[j].w.now
  }

  ghost predicate WatchedBy(ops: seq<Op>, now: int) {
    forall i :: 0 <= i < |ops| && ops[i].DoWatch? ==> ops[i].w.now <= now
  }

  // ---------- the record ----------

  /** The file holds one line per alert, in the order they were sent. */
  ghost predicate Logged(file: seq<(string, int)>, alerts: seq<Alert>) {
    |file| == |alerts| && forall i :: 0 <= i < |file| ==> file[i] == (alerts[i].digest, alerts[i].time)
  }

  ghost predicate NotAfter(alerts: seq<Alert>, now: int) {
    forall i :: 0 <= i < |alerts| ==> alerts[i].time <= now
  }

  ghost predicate InOrder(alerts: seq<Alert>) {
    forall i, j :: 0 <= i < j < |alerts| ==> alerts[i].time <= alerts[j].time
  }

  ghost predicate Spaced(alerts: seq<Alert>) {
    forall i, j ::
      0 <= i < j < |alerts| && alerts[i].digest == alerts[j].digest
      ==> alerts[j].time - alerts[i].time >= 3600
  }

  ghost predicate GoodRecord(s: Node) {
    Logged(s.notifyFile, s.alerts) && InOrder(s.alerts) && Spaced(s.alerts)
  }

  lemma {:induction false} LastIsLatest(file: seq<(string, int)>, alerts: seq<Alert>, digest: string)
    requires Logged(file, alerts) && InOrder(alerts)
    ensures forall i :: 0 <= i < |alerts| && alerts[i].digest == digest ==> alerts[i].time <= LastNotified(file, digest)
    ensures (forall i :: 0 <= i < |alerts| ==> alerts[i].digest != digest) ==> LastNotified(file, digest) == 0
    ensures (exists i :: 0 <= i < |alerts| && alerts[i].digest == digest) ==>
            exists i :: 0 <= i < |alerts| && alerts[i].digest == digest && alerts[i].time == LastNotified(file, digest)
  {
    if file != [] {
      var n := |file| - 1;
      LastIsLatest(file[..n], alerts[..n], digest);
      if alerts[n].digest != digest {
        assert LastNotified(file, digest) == LastNotified(file[..n], digest);
        if i :| 0 <= i < n && alerts[i].digest == digest {
          assert alerts[..n][i].digest == digest;
        }
      }
    }
  }

  /** A divergence is announced if and only if no alert with its digest was sent within the last hour. */
  lemma NotifiesUnlessRecent(s: Node, kind: AlertKind, w: WatchEnv)
    requires GoodRecord(s) && w.now >= 3600
    ensures Notify(s, kind, w).alerts == s.alerts + [Alert(kind, w.digest, w.now)] <==>
            forall i :: 0 <= i < |s.alerts| && s.alerts[i].digest == w.digest ==> w.now - s.alerts[i].time >= 3600
  {
    LastIsLatest(s.notifyFile, s.alerts, w.digest);
    assert |s.alerts| != |s.alerts + [Alert(kind, w.digest, w.now)]|;
  }

  lemma SpacedSnoc(alerts: seq<Alert>, a: Alert)
    requires Spaced(alerts) && forall i ::
               0 <= i < |alerts| && alerts[i].digest == a.digest
               ==> a.time - alerts[i].time >= 3600
    ensures Spaced(alerts + [a])
  {
  }

  lemma OrderSnoc(file: seq<(string, int)>, alerts: seq<Alert>, a: Alert)
    requires Logged(file, alerts) && InOrder(alerts) && NotAfter(alerts, a.time)
    ensures Logged(file + [(a.digest, a.time)], alerts + [a]) && InOrder(alerts + [a]) && NotAfter(alerts + [a], a.time)
  {
  }

  lemma NotifyKeeps(s: Node, kind: AlertKind, w: WatchEnv)
    requires GoodRecord(s) && NotAfter(s.alerts, w.now)
    ensures GoodRecord(Notify(s, kind, w)) && NotAfter(Notify(s, kind, w).alerts, w.now)
  {
    hide LastNotified, Spaced, Logged, InOrder, NotAfter;
    LastIsLatest(s.notifyFile, s.alerts, w.digest);
    OrderSnoc(s.notifyFile, s.alerts, Alert(kind, w.digest, w.now));
    if w.now - LastNotified(s.notifyFile, w.digest) >= COOLDOWN {
      SpacedSnoc(s.alerts, Alert(kind, w.digest, w.now));
    }
  }

  lemma WatchRecord(s: Node, w: WatchEnv)
    requires GoodRecord(s) && NotAfter(s.alerts, w.now)
    ensures GoodRecord(Watch(s, w)) && NotAfter(Watch(s, w).alerts, w.now)
  {
    hide Refresh, RefreshSucceeds, Healthy, StillBroken, Notify, GoodRecord, RestoreAll, Missing;
    var base := s.(sets := Recreate(s.sets));
    var refreshed := Refresh(base, w.text, w.loads, w.now);
    RefreshKeepsRules(base, w.text, w.loads, w.now);
    if !Healthy(s, w.now) {
      SameRecord(s, refreshed);
      SameRecord(s, Restored(s, w));
      NotifyKeeps(refreshed, RepairFailed, w);
      NotifyKeeps(Restored(s, w), Incomplete, w);
      NotifyKeeps(Restored(s, w), Repaired, w);
    }
  }

  lemma SameRecord(s: Node, t: Node)
    requires GoodRecord(s) && t.notifyFile == s.notifyFile && t.alerts == s.alerts
    ensures GoodRecord(t)
  {
  }

  lemma {:induction false} ReapplyKeepsRecord(s: Node, lines: seq<string>, clock: Clock)
    ensures var t := ReapplyLines(s, lines, clock); t.alerts == s.alerts && t.notifyFile == s.notifyFile
  {
    hide ReadArgs, CheckExpose, RemovePort, BlockOf;
    if lines != [] {
      ReapplyKeepsRecord(s, lines[..|lines| - 1], clock);
    }
  }

  lemma InstallKeepsRecord(s: Node, cfg: Config, env: InstallEnv)
    ensures var t := Install(s, cfg, env); t.alerts == s.alerts && t.notifyFile == s.notifyFile
  {
    hide Refresh, RefreshOk, SelfHeal, ReapplyLines, RenderInput, RenderForward, MergeSets, ConfigSets;
    var armed := InstallUpToArm(s, cfg);
    RefreshKeepsRules(armed, env.text, env.loads, env.now);
    var seeded := Refresh(armed, env.text, env.loads, env.now);
    ReapplyKeepsRecord(seeded, seeded.registry, env.clock);
  }

  /** No other script touches the notification record. */
  lemma OthersKeepRecord(s: Node, op: Op)
    requires !op.DoWatch?
    ensures Step(s, op).alerts == s.alerts && Step(s, op).notifyFile == s.notifyFile
  {
    hide Install, CheckExpose, ReapplyLines, Refresh, PeerAddr;
    hide DeleteHits, Lose, MergeSets, RenderLine, KeyPrefix, BlockOf;
    match op {
      case DoInstall(cfg, env) => InstallKeepsRecord(s, cfg, env);
      case DoReapply(clock) => ReapplyKeepsRecord(s, s.registry, clock);
      case DoRefresh(text, loads, now) => RefreshKeepsRules(s, text, loads, now);
      case _ =>
    }
  }

  lemma {:induction false} RecordOverRuns(s: Node, ops: seq<Op>, now: int)
    requires s.alerts == [] && s.notifyFile == [] && ClockForward(ops) && WatchedBy(ops, now)
    ensures GoodRecord(After(s, ops)) && NotAfter(After(s, ops).alerts, now)
  {
    hide Step, Watch, GoodRecord;
    if ops == [] {
      assert GoodRecord(s) by { FreshRecord(s); }
    } else {
      var n := |ops| - 1;
      var t, op := After(s, ops[..n]), ops[n];
      if op.DoWatch? {
        RecordOverRuns(s, ops[..n], op.w.now);
        WatchRecord(t, op.w);
        assert Step(t, op) == Watch(t, op.w) by { WatchStep(t, op.w); }
      } else {
        RecordOverRuns(s, ops[..n], now);
        OthersKeepRecord(t, op);
        SameRecord(t, Step(t, op));
      }
    }
  }

  lemma FreshRecord(s: Node)
    requires s.alerts == [] && s.notifyFile == []
    ensures GoodRecord(s)
  {
  }

  lemma WatchStep(s: Node, w: WatchEnv)
    ensures Step(s, DoWatch(w)) == Watch(s, w)
  {
    hide Watch;
  }

  function LatestWatch(ops: seq<Op>): int {
    if ops == [] then 0
    else if ops[|ops| - 1].DoWatch? then ops[|ops| - 1].w.now
    else LatestWatch(ops[..|ops| - 1])
  }

  lemma {:induction false} LatestBounds(ops: seq<Op>)
    requires ClockForward(ops)
    ensures WatchedBy(ops, LatestWatch(ops))
  {
    if ops != [] && !ops[|ops| - 1].DoWatch? {
      LatestBounds(ops[..|ops| - 1]);
    }
  }

  /**
   In every run in which the watchdog's clock never goes back, two notifications with the same digest are at least an
   hour apart, whichever of the repaired, incomplete and failed branches sent them.
   */
  lemma NotificationsAreSpaced(s: Node, ops: seq<Op>)
    requires s.alerts == [] && s.notifyFile == [] && ClockForward(ops)
    ensures Spaced(After(s, ops).alerts)
  {
    hide After;
    LatestBounds(ops);
    RecordOverRuns(s, ops, LatestWatch(ops));
  }
}
