/** The monitor over many sweeps, seen from one host. Each pass of the `while True` loop
    polls every target once (`CycleSpec`); `Sweeps` runs one such pass per round. For an
    address listed once, what the sweeps leave for it and send about it is what `Replay` of
    its own probe results gives, so the alerting rules of `Episodes` hold for the monitor
    that polls every host in turn. */
module Runs {
  import opened Targets
  import opened HostState
  import opened Episodes

  /** The inputs of one sweep: a probe result and a stamp per target, and the clock reading. */
  datatype Round = Round(obs: seq<Observation>, now: int)

  /** Every round has one observation per target. */
  predicate Fits(targets: seq<Target>, rounds: seq<Round>) {
    forall r :: r in rounds ==> |r.obs| == |targets|
  }

  /** Every listed address has an entry and an alert flag. */
  predicate Enrolled(t: Tables, targets: seq<Target>) {
    forall tg :: tg in targets ==> tg.ip in t.status && tg.ip in t.alertSent
  }

  /** One sweep per round, in order. */
  function Sweeps(t: Tables, grace: int, targets: seq<Target>, rounds: seq<Round>): (o: Outcome)
    requires Fits(targets, rounds) && Enrolled(t, targets)
    ensures o.tables.order == t.order
    ensures o.tables.status.Keys == t.status.Keys && o.tables.alertSent.Keys == t.alertSent.Keys
    ensures |o.sent| <= |rounds| * |targets|
    decreases |rounds|
  {
    if rounds == [] then Outcome(t, [])
    else
      assert rounds[0] in rounds;
      var c := CycleSpec(t, grace, targets, rounds[0].obs, rounds[0].now);
      var rest := Sweeps(c.tables, grace, targets, rounds[1..]);
      assert |rounds| * |targets| == (|rounds| - 1) * |targets| + |targets|;
      Outcome(rest.tables, c.sent + rest.sent)
  }

  /** Every sweep keeps the monitor's invariant, so any number of them do. */
  lemma {:induction false} SweepsKeepConsistent(t: Tables, grace: int, targets: seq<Target>, rounds: seq<Round>)
    requires Fits(targets, rounds) && Enrolled(t, targets)
    requires Consistent(t)
    ensures Consistent(Sweeps(t, grace, targets, rounds).tables)
    decreases |rounds|
  {
    if rounds != [] {
      assert rounds[0] in rounds;
      CycleKeepsConsistent(t, grace, targets, rounds[0].obs, rounds[0].now);
      var c := CycleSpec(t, grace, targets, rounds[0].obs, rounds[0].now);
      SweepsKeepConsistent(c.tables, grace, targets, rounds[1..]);
    }
  }

  /** The polls of target `i` across the rounds. */
  function HostProbes(rounds: seq<Round>, i: nat): (probes: seq<Probe>)
    requires forall r :: r in rounds ==> i < |r.obs|
    ensures |probes| == |rounds|
    ensures forall k :: 0 <= k < |rounds| ==>
              probes[k] == Probe(rounds[k].obs[i].isUp, rounds[k].now, rounds[k].obs[i].stamp)
    decreases |rounds|
  {
    if rounds == [] then []
    else
      assert rounds[0] in rounds;
      [Probe(rounds[0].obs[i].isUp, rounds[0].now, rounds[0].obs[i].stamp)] + HostProbes(rounds[1..], i)
  }

  /** A run of polls of `ip` depends only on `ip`'s own entries. */
  lemma {:induction false} ReplayLocal(t: Tables, t2: Tables, grace: int, h: string, ip: string, probes: seq<Probe>)
    requires ip in t.status && ip in t.alertSent
    requires SameEntry(t, t2, ip)
    ensures var o := Replay(t, grace, h, ip, probes);
            var o2 := Replay(t2, grace, h, ip, probes);
            SameEntry(o.tables, o2.tables, ip) && o.sent == o2.sent
    decreases |probes|
  {
    if probes != [] {
      var p := probes[0];
      PollStepLocal(t, t2, grace, h, ip, p.isUp, p.now, p.stamp);
      var first := PollStep(t, grace, h, ip, p.isUp, p.now, p.stamp);
      var first2 := PollStep(t2, grace, h, ip, p.isUp, p.now, p.stamp);
      ReplayLocal(first.tables, first2.tables, grace, h, ip, probes[1..]);
    }
  }

  /** The sweeps seen from an address listed once, at index `i`: its entries end as
      `Replay` of its own probe results leaves them, and the messages about it are exactly
      the messages of that replay, in order. */
  lemma {:induction false} SweepsProject(t: Tables, grace: int, targets: seq<Target>, rounds: seq<Round>, i: nat)
    requires Fits(targets, rounds) && Enrolled(t, targets)
    requires i < |targets|
    requires forall j :: 0 <= j < |targets| && j != i ==> targets[j].ip != targets[i].ip
    ensures targets[i].ip in t.status && targets[i].ip in t.alertSent
    ensures forall r :: r in rounds ==> i < |r.obs|
    ensures var ip := targets[i].ip;
            var o := Sweeps(t, grace, targets, rounds);
            var r := Replay(t, grace, targets[i].hostname, ip, HostProbes(rounds, i));
            SameEntry(o.tables, r.tables, ip) && About(o.sent, ip) == r.sent
    decreases |rounds|
  {
    var h, ip := targets[i].hostname, targets[i].ip;
    assert targets[i] in targets;
    if rounds != [] {
      var r0 := rounds[0];
      assert r0 in rounds;
      var c := CycleSpec(t, grace, targets, r0.obs, r0.now);
      CycleProjects(t, grace, targets, r0.obs, r0.now, i);
      var p := PollStep(t, grace, h, ip, r0.obs[i].isUp, r0.now, r0.obs[i].stamp);
      var later := HostProbes(rounds[1..], i);
      SweepsProject(c.tables, grace, targets, rounds[1..], i);
      ReplayLocal(c.tables, p.tables, grace, h, ip, later);
      var probe0 := Probe(r0.obs[i].isUp, r0.now, r0.obs[i].stamp);
      assert HostProbes(rounds, i) == [probe0] + later;
      ReplayCons(t, grace, h, ip, probe0, later);
      var rest := Sweeps(c.tables, grace, targets, rounds[1..]);
      AboutConcat(c.sent, rest.sent, ip);
      SameEntryTrans(Replay(c.tables, grace, h, ip, later).tables, rest.tables,
                     Replay(p.tables, grace, h, ip, later).tables, ip);
    }
  }

  /** While a host listed once fails every sweep, the monitor sends at most one ALERT about
      it, none if one already went out, and no RECOVERY. */
  lemma MonitorAlertsOncePerFailureRun(t: Tables, grace: int, targets: seq<Target>, rounds: seq<Round>, i: nat)
    requires Fits(targets, rounds) && Enrolled(t, targets)
    requires i < |targets|
    requires forall j :: 0 <= j < |targets| && j != i ==> targets[j].ip != targets[i].ip
    requires forall k :: 0 <= k < |rounds| ==> |rounds[k].obs| == |targets| && !rounds[k].obs[i].isUp
    ensures targets[i].ip in t.alertSent
    ensures var about := About(Sweeps(t, grace, targets, rounds).sent, targets[i].ip);
      && Alerts(about) <= 1
      && (t.alertSent[targets[i].ip] ==> Alerts(about) == 0)
      && Recoveries(about) == 0
  {
    SweepsProject(t, grace, targets, rounds, i);
    FailureRunAlertsAtMostOnce(t, grace, targets[i].hostname, targets[i].ip, HostProbes(rounds, i));
  }

  /** For a host listed once that was up with no alert pending, failing every sweep: the
      monitor sends exactly one ALERT about it if some later sweep comes at least the grace
      period after the first, and none otherwise. */
  lemma MonitorAlertIffGraceElapsed(t: Tables, grace: int, targets: seq<Target>, rounds: seq<Round>, i: nat)
    requires Fits(targets, rounds) && Enrolled(t, targets)
    requires i < |targets|
    requires forall j :: 0 <= j < |targets| && j != i ==> targets[j].ip != targets[i].ip
    requires targets[i].ip !in t.downSince && targets[i].ip in t.alertSent && !t.alertSent[targets[i].ip]
    requires rounds != []
    requires forall k :: 0 <= k < |rounds| ==> |rounds[k].obs| == |targets| && !rounds[k].obs[i].isUp
    ensures var n := Alerts(About(Sweeps(t, grace, targets, rounds).sent, targets[i].ip));
      && n <= 1
      && (n == 1 <==> exists k :: 1 <= k < |rounds| && rounds[k].now - rounds[0].now >= grace)
  {
    SweepsProject(t, grace, targets, rounds, i);
    GraceOverRounds(t, grace, targets[i].hostname, targets[i].ip, rounds, i);
  }

  /** `AlertIffGraceElapsed` for the polls of target `i` across the rounds. */
  lemma GraceOverRounds(t: Tables, grace: int, h: string, ip: string, rounds: seq<Round>, i: nat)
    requires ip in t.status && ip in t.alertSent && ip !in t.downSince && !t.alertSent[ip]
    requires rounds != []
    requires forall k :: 0 <= k < |rounds| ==> i < |rounds[k].obs| && !rounds[k].obs[i].isUp
    ensures forall r :: r in rounds ==> i < |r.obs|
    ensures var n := Alerts(Replay(t, grace, h, ip, HostProbes(rounds, i)).sent);
      && n <= 1
      && (n == 1 <==> exists k :: 1 <= k < |rounds| && rounds[k].now - rounds[0].now >= grace)
  {
    var probes := HostProbes(rounds, i);
    AlertIffGraceElapsed(t, grace, h, ip, probes);
    assert forall k :: 0 <= k < |rounds| ==> probes[k].now == rounds[k].now;
  }

  /** A host listed once that is up and answers every sweep stays quiet: no message about
      it, and its entry and alert flag are unchanged. */
  lemma MonitorQuietWhileUp(t: Tables, grace: int, targets: seq<Target>, rounds: seq<Round>, i: nat)
    requires Fits(targets, rounds) && Enrolled(t, targets)
    requires i < |targets|
    requires forall j :: 0 <= j < |targets| && j != i ==> targets[j].ip != targets[i].ip
    requires targets[i].ip in t.status && t.status[targets[i].ip].isUp
    requires forall k :: 0 <= k < |rounds| ==> |rounds[k].obs| == |targets| && rounds[k].obs[i].isUp
    ensures targets[i].ip in t.alertSent
    ensures var ip := targets[i].ip;
            var o := Sweeps(t, grace, targets, rounds);
      && About(o.sent, ip) == []
      && o.tables.status[ip] == t.status[ip]
      && o.tables.alertSent[ip] == t.alertSent[ip]
  {
    SweepsProject(t, grace, targets, rounds, i);
    UpHostStaysQuiet(t, grace, targets[i].hostname, targets[i].ip, HostProbes(rounds, i));
  }

  /** A host listed once that fails some sweeps and then answers: the last message about it
      is a RECOVERY, the only one, and it ends up, out of `down_since`, with its flag clear
      and `last_change` set to the last sweep's stamp. */
  lemma MonitorRecovers(t: Tables, grace: int, targets: seq<Target>, rounds: seq<Round>, i: nat)
    requires Fits(targets, rounds) && Enrolled(t, targets)
    requires i < |targets|
    requires forall j :: 0 <= j < |targets| && j != i ==> targets[j].ip != targets[i].ip
    requires |rounds| >= 2
    requires forall k :: 0 <= k < |rounds| ==> |rounds[k].obs| == |targets|
    requires forall k :: 0 <= k < |rounds| - 1 ==> !rounds[k].obs[i].isUp
    requires rounds[|rounds| - 1].obs[i].isUp
    ensures targets[i].ip in t.status && targets[i].ip in t.alertSent
    ensures var ip := targets[i].ip;
            var o := Sweeps(t, grace, targets, rounds);
            var about := About(o.sent, ip);
            var last := rounds[|rounds| - 1];
      && about != [] && about[|about| - 1] == Recovery(targets[i].hostname, ip)
      && Recoveries(about) == 1
      && o.tables.status[ip].isUp && o.tables.status[ip].lastChange == last.obs[i].stamp
      && ip !in o.tables.downSince && !o.tables.alertSent[ip]
  {
    var h, ip := targets[i].hostname, targets[i].ip;
    SweepsProject(t, grace, targets, rounds, i);
    RecoveryOverRounds(t, grace, h, ip, rounds, i);
  }

  /** `DownRunEndsInRecovery` for the polls of target `i` across the rounds. */
  lemma RecoveryOverRounds(t: Tables, grace: int, h: string, ip: string, rounds: seq<Round>, i: nat)
    requires ip in t.status && ip in t.alertSent
    requires |rounds| >= 2
    requires forall k :: 0 <= k < |rounds| ==> i < |rounds[k].obs|
    requires forall k :: 0 <= k < |rounds| - 1 ==> !rounds[k].obs[i].isUp
    requires rounds[|rounds| - 1].obs[i].isUp
    ensures forall r :: r in rounds ==> i < |r.obs|
    ensures RecoveredBy(Replay(t, grace, h, ip, HostProbes(rounds, i)), h, ip,
                        Probe(true, rounds[|rounds| - 1].now, rounds[|rounds| - 1].obs[i].stamp))
  {
    var probes := HostProbes(rounds, i);
    var n := |rounds| - 1;
    var fails, ok := probes[..n], probes[n];
    assert fails + [ok] == probes;
    DownRunEndsInRecovery(t, grace, h, ip, fails, ok);
  }
}
