/** What the poll step does to one host over many polls: `Replay` folds the host's own
    probe results through `PollStep`. `Runs.SweepsProject` shows that this is what the
    monitor, which polls every host in turn, does to a host listed once. */
module Episodes {
  import opened Targets
  import opened HostState

  /** One poll of the host: the probe result, the clock reading and the stamp for `last_change`. */
  datatype Probe = Probe(isUp: bool, now: int, stamp: string)

  /** The number of ALERT messages among `sent`. */
  function Alerts(sent: seq<Notification>): nat {
    if sent == [] then 0 else Alerts(sent[..|sent| - 1]) + (if sent[|sent| - 1].Alert? then 1 else 0)
  }

  /** The number of RECOVERY messages among `sent`. */
  function Recoveries(sent: seq<Notification>): nat {
    if sent == [] then 0 else Recoveries(sent[..|sent| - 1]) + (if sent[|sent| - 1].Recovery? then 1 else 0)
  }

  lemma {:induction false} CountsConcat(a: seq<Notification>, b: seq<Notification>)
    ensures Alerts(a + b) == Alerts(a) + Alerts(b)
    ensures Recoveries(a + b) == Recoveries(a) + Recoveries(b)
    decreases |b|
  {
    if b == [] {
      assert a + b == a;
    } else {
      var n := |b| - 1;
      assert (a + b)[..|a + b| - 1] == a + b[..n];
      CountsConcat(a, b[..n]);
    }
  }

  /** Polling host `h` at `ip` once per element of `probes`, in order. */
  function Replay(t: Tables, grace: int, h: string, ip: string, probes: seq<Probe>): (o: Outcome)
    requires ip in t.status && ip in t.alertSent
    ensures o.tables.status.Keys == t.status.Keys && o.tables.alertSent.Keys == t.alertSent.Keys
    ensures |o.sent| <= |probes|
    decreases |probes|
  {
    if probes == [] then Outcome(t, [])
    else
      var first := PollStep(t, grace, h, ip, probes[0].isUp, probes[0].now, probes[0].stamp);
      var rest := Replay(first.tables, grace, h, ip, probes[1..]);
      Outcome(rest.tables, first.sent + rest.sent)
  }

  lemma ReplayCons(t: Tables, grace: int, h: string, ip: string, p: Probe, rest: seq<Probe>)
    requires ip in t.status && ip in t.alertSent
    ensures var first := PollStep(t, grace, h, ip, p.isUp, p.now, p.stamp);
            var r := Replay(first.tables, grace, h, ip, rest);
            Replay(t, grace, h, ip, [p] + rest) == Outcome(r.tables, first.sent + r.sent)
  {
    assert ([p] + rest)[0] == p && ([p] + rest)[1..] == rest;
  }

  /** A single poll sends nothing, an ALERT or a RECOVERY: the ALERT exactly when
      `AlertDue` holds, the RECOVERY exactly when the probe succeeded after a poll that left
      the host marked down (whether or not an ALERT was sent for it). */
  lemma PollNotifications(t: Tables, grace: int, h: string, ip: string, isUp: bool, now: int, stamp: string)
    requires ip in t.status && ip in t.alertSent
    ensures var o := PollStep(t, grace, h, ip, isUp, now, stamp);
      && (o.sent == [] || o.sent == [Alert(h, ip, grace / 60)] || o.sent == [Recovery(h, ip)])
      && (o.sent == [Alert(h, ip, grace / 60)] <==> AlertDue(t, grace, ip, isUp, now))
      && (o.sent == [Recovery(h, ip)] <==> isUp && !t.status[ip].isUp)
  {
  }

  /** `last_change` and `alert_sent` are written only on a poll that sends a message: the
      stamp goes into `last_change` with either message, an ALERT sets the flag and a
      RECOVERY clears it. */
  lemma PollWritesOnlyWithMessages(t: Tables, grace: int, h: string, ip: string, isUp: bool, now: int, stamp: string)
    requires ip in t.status && ip in t.alertSent
    ensures var o := PollStep(t, grace, h, ip, isUp, now, stamp);
      && (o.sent == [] ==>
            o.tables.status[ip].lastChange == t.status[ip].lastChange && o.tables.alertSent[ip] == t.alertSent[ip])
      && (o.sent != [] ==> o.tables.status[ip].lastChange == stamp)
      && (o.sent == [Alert(h, ip, grace / 60)] ==> o.tables.alertSent[ip])
      && (o.sent == [Recovery(h, ip)] ==> !o.tables.alertSent[ip])
  {
  }

  /** During a run of failed polls at most one ALERT goes out, none if one already went out
      before the run, and no RECOVERY; once sent, the flag stays set for the rest of the run. */
  lemma {:induction false} FailureRunAlertsAtMostOnce(t: Tables, grace: int, h: string, ip: string, probes: seq<Probe>)
    requires ip in t.status && ip in t.alertSent
    requires forall k :: 0 <= k < |probes| ==> !probes[k].isUp
    ensures var o := Replay(t, grace, h, ip, probes);
      && Alerts(o.sent) <= 1
      && (t.alertSent[ip] ==> Alerts(o.sent) == 0)
      && Recoveries(o.sent) == 0
      && o.tables.alertSent[ip] == (t.alertSent[ip] || Alerts(o.sent) == 1)
    decreases |probes|
  {
    if probes != [] {
      var p := probes[0];
      var first := PollStep(t, grace, h, ip, p.isUp, p.now, p.stamp);
      PollNotifications(t, grace, h, ip, p.isUp, p.now, p.stamp);
      PollWritesOnlyWithMessages(t, grace, h, ip, p.isUp, p.now, p.stamp);
      FailureRunAlertsAtMostOnce(first.tables, grace, h, ip, probes[1..]);
      var rest := Replay(first.tables, grace, h, ip, probes[1..]);
      CountsConcat(first.sent, rest.sent);
      assert Alerts([Alert(h, ip, grace / 60)]) == 1 by {
        assert [Alert(h, ip, grace / 60)][..0] == [];
      }
    }
  }

  /** During a run of failed polls `down_since` holds the time of the run's first failure
      (or the earlier time already recorded), and the host is shown down. */
  lemma {:induction false} FailureRunKeepsFirstFailure(t: Tables, grace: int, h: string, ip: string, probes: seq<Probe>)
    requires ip in t.status && ip in t.alertSent
    requires probes != []
    requires forall k :: 0 <= k < |probes| ==> !probes[k].isUp
    ensures var o := Replay(t, grace, h, ip, probes);
      && ip in o.tables.downSince
      && o.tables.downSince[ip] == (if ip in t.downSince then t.downSince[ip] else probes[0].now)
      && !o.tables.status[ip].isUp
    decreases |probes|
  {
    var p := probes[0];
    var first := PollStep(t, grace, h, ip, p.isUp, p.now, p.stamp);
    if |probes| > 1 {
      FailureRunKeepsFirstFailure(first.tables, grace, h, ip, probes[1..]);
    }
  }

  /** A failed poll of a host already in `down_since` keeps the recorded time and sends the
      ALERT exactly when none has gone out and the grace period has run out. */
  lemma PendingPoll(t: Tables, grace: int, h: string, ip: string, p: Probe)
    requires ip in t.status && ip in t.alertSent && ip in t.downSince
    requires !p.isUp
    ensures var o := PollStep(t, grace, h, ip, p.isUp, p.now, p.stamp);
      && ip in o.tables.status && ip in o.tables.alertSent
      && ip in o.tables.downSince && o.tables.downSince[ip] == t.downSince[ip]
      && o.sent == (if !t.alertSent[ip] && p.now - t.downSince[ip] >= grace then [Alert(h, ip, grace / 60)] else [])
      && o.tables.alertSent[ip] == (t.alertSent[ip] || p.now - t.downSince[ip] >= grace)
  {
  }

  /** Once a host is pending (already in `down_since`), a run of failures sends an ALERT
      exactly when no alert has gone out yet and some poll of the run comes at least the
      grace period after the recorded first failure. */
  lemma {:induction false} PendingRunAlerts(t: Tables, grace: int, h: string, ip: string, probes: seq<Probe>)
    requires ip in t.status && ip in t.alertSent && ip in t.downSince
    requires forall k :: 0 <= k < |probes| ==> !probes[k].isUp
    ensures Alerts(Replay(t, grace, h, ip, probes).sent) > 0 <==>
              !t.alertSent[ip] && exists k :: 0 <= k < |probes| && probes[k].now - t.downSince[ip] >= grace
    decreases |probes|
  {
    if probes != [] {
      var p := probes[0];
      var first := PollStep(t, grace, h, ip, p.isUp, p.now, p.stamp);
      var rest := Replay(first.tables, grace, h, ip, probes[1..]);
      PendingPoll(t, grace, h, ip, p);
      PendingRunAlerts(first.tables, grace, h, ip, probes[1..]);
      CountsConcat(first.sent, rest.sent);
      assert Alerts([Alert(h, ip, grace / 60)]) == 1 by {
        assert [Alert(h, ip, grace / 60)][..0] == [];
      }
      LateProbeSplit(probes, t.downSince[ip], grace);
    }
  }

  /** Some probe of a nonempty run comes `grace` or more after `from` exactly when the
      first one does or one of the others does. */
  lemma LateProbeSplit(probes: seq<Probe>, from: int, grace: int)
    requires probes != []
    ensures (exists k :: 1 <= k < |probes| && probes[k].now - from >= grace) <==>
              (exists k :: 0 <= k < |probes[1..]| && probes[1..][k].now - from >= grace)
    ensures (exists k :: 0 <= k < |probes| && probes[k].now - from >= grace) <==>
              (probes[0].now - from >= grace ||
               exists k :: 0 <= k < |probes[1..]| && probes[1..][k].now - from >= grace)
  {
    if exists k :: 0 <= k < |probes| && probes[k].now - from >= grace {
      var k :| 0 <= k < |probes| && probes[k].now - from >= grace;
      if k > 0 {
        assert probes[1..][k - 1] == probes[k];
      }
    }
    if exists k :: 1 <= k < |probes| && probes[k].now - from >= grace {
      var k :| 1 <= k < |probes| && probes[k].now - from >= grace;
      assert probes[1..][k - 1] == probes[k];
    }
    if exists k :: 0 <= k < |probes[1..]| && probes[1..][k].now - from >= grace {
      var k :| 0 <= k < |probes[1..]| && probes[1..][k].now - from >= grace;
      assert probes[k + 1] == probes[1..][k];
    }
  }

  /** The first failed poll of a host that was not failing only records the time. */
  lemma FirstFailure(t: Tables, grace: int, h: string, ip: string, p: Probe)
    requires ip in t.status && ip in t.alertSent && ip !in t.downSince
    requires !p.isUp
    ensures var o := PollStep(t, grace, h, ip, p.isUp, p.now, p.stamp);
      && ip in o.tables.status && ip in o.tables.alertSent
      && ip in o.tables.downSince && o.tables.downSince[ip] == p.now
      && o.sent == [] && o.tables.alertSent[ip] == t.alertSent[ip]
  {
  }

  /** The grace period, for a host that was up: a run of failed polls sends exactly one
      ALERT if some poll after the first comes at least the grace period after the first,
      and none otherwise. The first failed poll itself never alerts, even with a grace
      period of zero, because it only records `down_since`. */
  lemma AlertIffGraceElapsed(t: Tables, grace: int, h: string, ip: string, probes: seq<Probe>)
    requires ip in t.status && ip in t.alertSent
    requires ip !in t.downSince && !t.alertSent[ip]
    requires probes != []
    requires forall k :: 0 <= k < |probes| ==> !probes[k].isUp
    ensures var n := Alerts(Replay(t, grace, h, ip, probes).sent);
      && n <= 1
      && (n == 1 <==> exists k :: 1 <= k < |probes| && probes[k].now - probes[0].now >= grace)
  {
    var p := probes[0];
    var first := PollStep(t, grace, h, ip, p.isUp, p.now, p.stamp);
    var rest := Replay(first.tables, grace, h, ip, probes[1..]);
    FirstFailure(t, grace, h, ip, p);
    PendingRunAlerts(first.tables, grace, h, ip, probes[1..]);
    FailureRunAlertsAtMostOnce(t, grace, h, ip, probes);
    assert first.sent + rest.sent == rest.sent;
    LateProbeSplit(probes, p.now, grace);
  }

  /** Polling an up host that keeps answering sends nothing and changes neither its entry
      nor its alert flag. */
  lemma {:induction false} UpHostStaysQuiet(t: Tables, grace: int, h: string, ip: string, probes: seq<Probe>)
    requires ip in t.status && ip in t.alertSent
    requires t.status[ip].isUp
    requires forall k :: 0 <= k < |probes| ==> probes[k].isUp
    ensures var o := Replay(t, grace, h, ip, probes);
      && o.sent == []
      && o.tables.status[ip] == t.status[ip]
      && o.tables.alertSent[ip] == t.alertSent[ip]
    decreases |probes|
  {
    if probes != [] {
      var p := probes[0];
      var first := PollStep(t, grace, h, ip, p.isUp, p.now, p.stamp);
      PollNotifications(t, grace, h, ip, p.isUp, p.now, p.stamp);
      PollWritesOnlyWithMessages(t, grace, h, ip, p.isUp, p.now, p.stamp);
      UpHostStaysQuiet(first.tables, grace, h, ip, probes[1..]);
    }
  }

  /** The shape of the polls' outcome that `DownRunEndsInRecovery` promises. */
  ghost predicate RecoveredBy(o: Outcome, h: string, ip: string, ok: Probe)
    requires ip in o.tables.status && ip in o.tables.alertSent
  {
    && o.sent != [] && o.sent[|o.sent| - 1] == Recovery(h, ip)
    && Recoveries(o.sent) == 1
    && o.tables.status[ip].isUp && o.tables.status[ip].lastChange == ok.stamp
    && ip !in o.tables.downSince && !o.tables.alertSent[ip]
  }

  /** One failed poll followed by a successful one. */
  lemma FailThenRecover(t: Tables, grace: int, h: string, ip: string, p: Probe, ok: Probe)
    requires ip in t.status && ip in t.alertSent
    requires !p.isUp && ok.isUp
    ensures RecoveredBy(Replay(t, grace, h, ip, [p, ok]), h, ip, ok)
  {
    var first := PollStep(t, grace, h, ip, p.isUp, p.now, p.stamp);
    var last := PollStep(first.tables, grace, h, ip, ok.isUp, ok.now, ok.stamp);
    PollNotifications(t, grace, h, ip, p.isUp, p.now, p.stamp);
    PollNotifications(first.tables, grace, h, ip, ok.isUp, ok.now, ok.stamp);
    PollWritesOnlyWithMessages(first.tables, grace, h, ip, ok.isUp, ok.now, ok.stamp);
    assert [p, ok][1..] == [ok];
    assert [ok][1..] == [];
    var r1 := Replay(first.tables, grace, h, ip, [ok]);
    assert Replay(last.tables, grace, h, ip, []) == Outcome(last.tables, []);
    assert r1.tables == last.tables;
    assert r1.sent == last.sent + [];
    var o := Replay(t, grace, h, ip, [p, ok]);
    assert o.tables == r1.tables;
    assert o.sent == first.sent + r1.sent;
    CountsConcat(first.sent, last.sent);
    assert Recoveries(first.sent) == 0 by {
      if first.sent != [] {
        assert first.sent[..0] == [];
      }
    }
    assert Recoveries([Recovery(h, ip)]) == 1 by {
      assert [Recovery(h, ip)][..0] == [];
    }
  }

  /** A run of failed polls ended by one successful poll always ends with a RECOVERY, the
      only one of the run, and leaves the host up, out of `down_since`, with its flag clear
      and `last_change` set to the successful poll's stamp. */
  lemma {:induction false} DownRunEndsInRecovery(t: Tables, grace: int, h: string, ip: string, fails: seq<Probe>, ok: Probe)
    requires ip in t.status && ip in t.alertSent
    requires fails != []
    requires forall k :: 0 <= k < |fails| ==> !fails[k].isUp
    requires ok.isUp
    ensures RecoveredBy(Replay(t, grace, h, ip, fails + [ok]), h, ip, ok)
    decreases |fails|
  {
    var p := fails[0];
    if |fails| == 1 {
      assert fails + [ok] == [p, ok];
      FailThenRecover(t, grace, h, ip, p, ok);
    } else {
      var first := PollStep(t, grace, h, ip, p.isUp, p.now, p.stamp);
      PollNotifications(t, grace, h, ip, p.isUp, p.now, p.stamp);
      var tail := fails[1..] + [ok];
      assert (fails + [ok])[0] == p && (fails + [ok])[1..] == tail;
      DownRunEndsInRecovery(first.tables, grace, h, ip, fails[1..], ok);
      var rest := Replay(first.tables, grace, h, ip, tail);
      assert Replay(t, grace, h, ip, fails + [ok]) == Outcome(rest.tables, first.sent + rest.sent);
      CountsConcat(first.sent, rest.sent);
      assert Recoveries(first.sent) == 0 by {
        if first.sent != [] {
          assert first.sent[..0] == [];
        }
      }
    }
  }

  /** As the loop is written, `is_up` follows the raw probe result, so a single failed poll
      of an up host followed by a successful one sends a RECOVERY with no ALERT before it. */
  lemma BlipSendsRecoveryWithoutAlert(t: Tables, grace: int, h: string, ip: string, down: Probe, up: Probe)
    requires ip in t.status && ip in t.alertSent && ip !in t.downSince
    requires !down.isUp && up.isUp
    ensures Replay(t, grace, h, ip, [down, up]).sent == [Recovery(h, ip)]
  {
    var first := PollStep(t, grace, h, ip, down.isUp, down.now, down.stamp);
    assert [down, up][1..] == [up];
    assert first.sent == [];
    assert Replay(first.tables, grace, h, ip, [up]).sent == PollStep(first.tables, grace, h, ip, up.isUp, up.now, up.stamp).sent + [];
  }
}
