/** The monitor as the program runs it: the dictionaries `status_data`, `down_since` and
    `alert_sent` are fields updated in place, and the webhook is a log of the messages
    handed to it. Every method is proved to do to the fields what the matching function
    of module HostState, Summary or Dashboard says. */
module Monitoring {
  import opened Targets
  import opened HostState
  import Summary
  import Dashboard

  class Monitor {
    /** `GRACE_PERIOD`, in seconds. */
    const grace: int
    /** `status_data`, keyed by address. */
    var status: map<string, HostStatus>
    /** The insertion order of `status_data`'s keys. */
    var order: seq<string>
    /** `down_since`: the clock reading of the first failure of the current run. */
    var downSince: map<string, int>
    /** `alert_sent`. */
    var alertSent: map<string, bool>
    /** Every message handed to the webhook so far, oldest first. */
    var log: seq<Notification>

    /** The dictionaries as one value. */
    function State(): Tables
      reads this
    {
      Tables(status, order, downSince, alertSent)
    }

    ghost predicate Valid()
      reads this
    {
      Consistent(State())
    }

    /** The module-level dictionaries, empty at start-up. */
    constructor (grace: int)
      ensures this.grace == grace
      ensures State() == Tables(map[], [], map[], map[]) && log == []
      ensures Valid()
    {
      this.grace := grace;
      status := map[];
      order := [];
      downSince := map[];
      alertSent := map[];
      log := [];
    }

    /** The initialisation loop at the top of `monitor()`. */
    method Init(targets: seq<Target>)
      modifies this
      ensures State() == Seed(old(State()), targets)
      ensures log == old(log)
      ensures old(Valid()) && (forall tg :: tg in targets ==> tg.ip !in old(downSince)) ==> Valid()
    {
      ghost var start := State();
      for i := 0 to |targets|
        invariant State() == Seed(start, targets[..i])
        invariant log == old(log)
      {
        assert targets[..i + 1][..i] == targets[..i];
        var tg := targets[i];
        if tg.ip !in status {
          order := order + [tg.ip];
        }
        status := status[tg.ip := HostStatus(tg.hostname, tg.ip, true, Never)];
        alertSent := alertSent[tg.ip := false];
      }
      assert targets[..|targets|] == targets;
      if Consistent(start) && forall tg :: tg in targets ==> tg.ip !in start.downSince {
        SeedKeepsConsistent(start, targets);
      }
    }

    /** The body of the poll loop for one target. */
    method Poll(h: string, ip: string, isUp: bool, now: int, stamp: string)
      requires ip in status && ip in alertSent
      modifies this
      ensures State() == PollStep(old(State()), grace, h, ip, isUp, now, stamp).tables
      ensures log == old(log) + PollStep(old(State()), grace, h, ip, isUp, now, stamp).sent
      ensures old(Valid()) ==> Valid()
    {
      ghost var start := State();
      var prev := status[ip].isUp;
      if isUp {
        if !prev {
          status := status[ip := status[ip].(isUp := true, lastChange := stamp)];
          log := log + [Recovery(h, ip)];
          alertSent := alertSent[ip := false];
        }
        downSince := downSince - {ip};
      } else {
        if ip !in downSince {
          downSince := downSince[ip := now];
        } else if now - downSince[ip] >= grace && !alertSent[ip] {
          log := log + [Alert(h, ip, grace / 60)];
          status := status[ip := status[ip].(isUp := false, lastChange := stamp)];
          alertSent := alertSent[ip := true];
        }
      }
      status := status[ip := status[ip].(isUp := isUp)];
      if Consistent(start) {
        PollKeepsConsistent(start, grace, h, ip, isUp, now, stamp);
      }
    }

    /** One pass of the `for` loop over the targets, with the probe results `obs` in
        target order and the clock reading `now` taken before the pass. */
    method Cycle(targets: seq<Target>, obs: seq<Observation>, now: int)
      requires |obs| == |targets|
      requires forall tg :: tg in targets ==> tg.ip in status && tg.ip in alertSent
      modifies this
      ensures State() == CycleSpec(old(State()), grace, targets, obs, now).tables
      ensures log == old(log) + CycleSpec(old(State()), grace, targets, obs, now).sent
      ensures old(Valid()) ==> Valid()
    {
      ghost var start := State();
      ghost var log0 := log;
      for i := 0 to |targets|
        invariant State() == CycleSpec(start, grace, targets[..i], obs[..i], now).tables
        invariant log == log0 + CycleSpec(start, grace, targets[..i], obs[..i], now).sent
      {
        CycleSpecPrefix(start, grace, targets, obs, now, i);
        ghost var prior := CycleSpec(start, grace, targets[..i], obs[..i], now);
        var tg, ob := targets[i], obs[i];
        ghost var step := PollStep(prior.tables, grace, tg.hostname, tg.ip, ob.isUp, now, ob.stamp);
        Poll(tg.hostname, tg.ip, ob.isUp, now, ob.stamp);
        assert State() == step.tables;
        AppendAssoc(log0, prior.sent, step.sent);
      }
      assert targets[..|targets|] == targets && obs[..|obs|] == obs;
      if Consistent(start) {
        CycleKeepsConsistent(start, grace, targets, obs, now);
      }
    }

    /** `daily_summary`: one message, listing the down targets or saying all are up. */
    method DailySummary(targets: seq<Target>)
      modifies this`log
      ensures log == old(log) + [Summary.Digest(Summary.DownHosts(status, targets))]
    {
      var down: seq<Target> := [];
      for i := 0 to |targets|
        invariant down == Summary.DownHosts(status, targets[..i])
      {
        assert targets[..i + 1][..i] == targets[..i];
        var tg := targets[i];
        var up := if tg.ip in status then status[tg.ip].isUp else true;
        if !up {
          down := down + [tg];
        }
      }
      assert targets[..|targets|] == targets;
      if down != [] {
        log := log + [DailyDown(down)];
      } else {
        log := log + [DailyAllUp];
      }
    }

    /** The rows the dashboard page and the status feed show: every entry of
        `status_data`, down hosts first, each group in the dictionary's order. */
    method StatusRows() returns (rows: seq<HostStatus>)
      ensures rows == Dashboard.DownFirst(Dashboard.Rows(status, order))
    {
      var values := Dashboard.Rows(status, order);
      var a := new HostStatus[|values|](k requires 0 <= k < |values| => values[k]);
      assert a[..] == values;
      Dashboard.SortDownFirst(a);
      rows := a[..];
    }
  }

  /** Sending `b` and then `c` after `a` is sending `b + c` after `a`. */
  lemma AppendAssoc(a: seq<Notification>, b: seq<Notification>, c: seq<Notification>)
    ensures (a + b) + c == a + (b + c)
  {
  }
}
