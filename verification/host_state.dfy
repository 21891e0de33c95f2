/** The monitor's runtime state as values: the three dictionaries the poll loop keeps
    (`status_data`, `down_since`, `alert_sent`) and what one poll, one initialisation and
    one cycle over the targets do to them. The class in module Monitoring holds the same
    dictionaries as fields and is proved to follow these functions. */
module HostState {
  import opened Targets

  /** The `last_change` shown for a host that has never changed state. */
  const Never: string := "Never"

  /** One `status_data` entry. */
  datatype HostStatus = HostStatus(hostname: string, ip: string, isUp: bool, lastChange: string)

  /** What is handed to the webhook: the wording of each message is left abstract. */
  datatype Notification =
    | Alert(hostname: string, ip: string, minutes: int)
    | Recovery(hostname: string, ip: string)
    | DailyDown(hosts: seq<Target>)
    | DailyAllUp

  /** The three dictionaries, plus the insertion order of `status_data`'s keys (a Python
      dict iterates in insertion order, which is the order the dashboard rows start from). */
  datatype Tables = Tables(
    status: map<string, HostStatus>,
    order: seq<string>,
    downSince: map<string, int>,
    alertSent: map<string, bool>)

  /** The state after a step, and the notifications the step sent, oldest first. */
  datatype Outcome = Outcome(tables: Tables, sent: seq<Notification>)

  /** One probe result as the loop sees it: reachability and the UTC stamp that would be
      written if the host's `last_change` is updated on this poll. */
  datatype Observation = Observation(isUp: bool, stamp: string)

  /** The invariant the monitor keeps from start-up on: every host has an `alert_sent`
      flag, a host is in `down_since` exactly when its last probe failed, a sent alert
      belongs to a host that is still down, and `order` lists each host once. */
  ghost predicate Consistent(t: Tables) {
    && t.alertSent.Keys == t.status.Keys
    && t.downSince.Keys <= t.status.Keys
    && (forall ip :: ip in t.status ==> t.status[ip].ip == ip)
    && (forall ip :: ip in t.status ==> (ip in t.downSince <==> !t.status[ip].isUp))
    && (forall ip :: ip in t.alertSent && t.alertSent[ip] ==> ip in t.downSince)
    && (forall i, j :: 0 <= i < j < |t.order| ==> t.order[i] != t.order[j])
    && (forall ip :: ip in t.status <==> ip in t.order)
  }

  /** Host `ip` has the same entry (or the same absence) in all three dictionaries. */
  ghost predicate SameEntry(t: Tables, u: Tables, ip: string) {
    && (ip in t.status <==> ip in u.status)
    && (ip in t.status ==> u.status[ip] == t.status[ip])
    && (ip in t.downSince <==> ip in u.downSince)
    && (ip in t.downSince ==> u.downSince[ip] == t.downSince[ip])
    && (ip in t.alertSent <==> ip in u.alertSent)
    && (ip in t.alertSent ==> u.alertSent[ip] == t.alertSent[ip])
  }

  /** The addresses of a target list. */
  function Ips(targets: seq<Target>): set<string> {
    set t | t in targets :: t.ip
  }

  /** The condition under which a poll sends an ALERT: the probe failed, the host was
      already failing, the grace period has run out since its first failure, and no
      alert has gone out for this run of failures yet. */
  predicate AlertDue(t: Tables, grace: int, ip: string, isUp: bool, now: int)
    requires ip in t.alertSent
  {
    !isUp && ip in t.downSince && now - t.downSince[ip] >= grace && !t.alertSent[ip]
  }

  /** One pass of the poll loop's body for host `h` at address `ip`, given the probe
      result `isUp`, the cycle's clock reading `now` (seconds) and the stamp written to
      `last_change` if it changes. The alert reports the grace period in whole minutes,
      rounded down (`/` by a positive number rounds down, as Python's `//` does). */
  function PollStep(t: Tables, grace: int, h: string, ip: string, isUp: bool, now: int, stamp: string): (o: Outcome)
    requires ip in t.status && ip in t.alertSent
    ensures o.tables.order == t.order
    ensures o.tables.status.Keys == t.status.Keys && o.tables.alertSent.Keys == t.alertSent.Keys
    ensures o.tables.status[ip].isUp == isUp
    ensures o.tables.status[ip].hostname == t.status[ip].hostname && o.tables.status[ip].ip == t.status[ip].ip
    ensures isUp ==> ip !in o.tables.downSince
    ensures !isUp ==>
              (ip in o.tables.downSince &&
               o.tables.downSince[ip] == if ip in t.downSince then t.downSince[ip] else now)
    ensures |o.sent| <= 1
  {
    var prev := t.status[ip].isUp;
    var mid :=
      if isUp then
        if !prev then
          Outcome(t.(status := t.status[ip := t.status[ip].(isUp := true, lastChange := stamp)],
                     alertSent := t.alertSent[ip := false],
                     downSince := t.downSince - {ip}),
                  [Recovery(h, ip)])
        else
          Outcome(t.(downSince := t.downSince - {ip}), [])
      else if ip !in t.downSince then
        Outcome(t.(downSince := t.downSince[ip := now]), [])
      else if now - t.downSince[ip] >= grace && !t.alertSent[ip] then
        Outcome(t.(status := t.status[ip := t.status[ip].(isUp := false, lastChange := stamp)],
                   alertSent := t.alertSent[ip := true]),
                [Alert(h, ip, grace / 60)])
      else
        Outcome(t, []);
    var s := mid.tables.status;
    Outcome(mid.tables.(status := s[ip := s[ip].(isUp := isUp)]), mid.sent)
  }

  /** A poll of `ip` touches no other host's entries, and no poll renames a host. */
  lemma PollLeavesOthersAlone(t: Tables, grace: int, h: string, ip: string, isUp: bool, now: int, stamp: string)
    requires ip in t.status && ip in t.alertSent
    ensures var u := PollStep(t, grace, h, ip, isUp, now, stamp).tables;
      && (forall k :: k != ip ==> SameEntry(t, u, k))
      && (forall k :: k in t.status ==> u.status[k].hostname == t.status[k].hostname && u.status[k].ip == t.status[k].ip)
  {
  }

  /** A poll of `ip` depends only on `ip`'s own entries: on two states that agree about
      `ip`, it leaves the same entries for `ip` and sends the same messages. */
  lemma PollStepLocal(t: Tables, t2: Tables, grace: int, h: string, ip: string, isUp: bool, now: int, stamp: string)
    requires ip in t.status && ip in t.alertSent
    requires SameEntry(t, t2, ip)
    ensures var o := PollStep(t, grace, h, ip, isUp, now, stamp);
            var o2 := PollStep(t2, grace, h, ip, isUp, now, stamp);
            SameEntry(o.tables, o2.tables, ip) && o.sent == o2.sent
  {
  }

  /** Every message a poll sends is an ALERT or a RECOVERY naming the polled host. */
  lemma PollSentNamesHost(t: Tables, grace: int, h: string, ip: string, isUp: bool, now: int, stamp: string)
    requires ip in t.status && ip in t.alertSent
    ensures forall m :: m in PollStep(t, grace, h, ip, isUp, now, stamp).sent ==>
              (m.Alert? || m.Recovery?) && m.hostname == h && m.ip == ip
  {
  }

  /** A poll keeps the monitor's invariant. */
  lemma PollKeepsConsistent(t: Tables, grace: int, h: string, ip: string, isUp: bool, now: int, stamp: string)
    requires ip in t.status && ip in t.alertSent
    requires Consistent(t)
    ensures Consistent(PollStep(t, grace, h, ip, isUp, now, stamp).tables)
  {
    var u := PollStep(t, grace, h, ip, isUp, now, stamp).tables;
    PollLeavesOthersAlone(t, grace, h, ip, isUp, now, stamp);
    forall k | k in u.status
      ensures u.status[k].ip == k
      ensures k in u.downSince <==> !u.status[k].isUp
      ensures u.alertSent[k] ==> k in u.downSince
    {
      if k != ip {
        assert SameEntry(t, u, k);
      } else if !isUp {
        assert k in u.downSince;
      } else {
        assert !u.alertSent[k] by {
          if t.status[ip].isUp {
            assert ip !in t.downSince;
          }
        }
      }
    }
  }

  /** One line of the initialisation loop: the address gets an entry that is up, has never
      changed and has sent no alert. An address already present keeps its place in the
      dictionary's order; a new one goes at the end. */
  function Enroll(u: Tables, tg: Target): (w: Tables)
    ensures w.downSince == u.downSince
    ensures w.status.Keys == u.status.Keys + {tg.ip} && w.alertSent.Keys == u.alertSent.Keys + {tg.ip}
    ensures w.status[tg.ip].isUp && !w.alertSent[tg.ip]
    ensures forall k :: k != tg.ip ==> SameEntry(u, w, k)
  {
    u.(status := u.status[tg.ip := HostStatus(tg.hostname, tg.ip, true, Never)],
       order := if tg.ip in u.status then u.order else u.order + [tg.ip],
       alertSent := u.alertSent[tg.ip := false])
  }

  /** The initialisation loop over the targets, one line after another. A later line with
      the same address overwrites the earlier entry. */
  function Seed(t: Tables, targets: seq<Target>): (u: Tables)
    ensures u.downSince == t.downSince
    decreases |targets|
  {
    if targets == [] then t
    else
      var n := |targets| - 1;
      Enroll(Seed(t, targets[..n]), targets[n])
  }

  /** Initialisation gives every listed address an entry that is up, has never changed and
      has no alert sent, and leaves every other address as it was. */
  lemma {:induction false} SeedEntries(t: Tables, targets: seq<Target>)
    ensures var u := Seed(t, targets);
      && (forall k :: k !in Ips(targets) ==> SameEntry(t, u, k))
      && (forall k :: k in Ips(targets) ==>
            && k in u.status && k in u.alertSent
            && u.status[k].ip == k && u.status[k].isUp && u.status[k].lastChange == Never
            && !u.alertSent[k])
    decreases |targets|
  {
    if targets != [] {
      var n := |targets| - 1;
      IpsSnoc(targets);
      SeedEntries(t, targets[..n]);
    }
  }

  /** The poll loop's inner `for`: every target polled once, in list order, all with the
      clock reading taken at the start of the cycle. */
  function CycleSpec(t: Tables, grace: int, targets: seq<Target>, obs: seq<Observation>, now: int): (o: Outcome)
    requires |obs| == |targets|
    requires forall tg :: tg in targets ==> tg.ip in t.status && tg.ip in t.alertSent
    ensures o.tables.order == t.order
    ensures o.tables.status.Keys == t.status.Keys && o.tables.alertSent.Keys == t.alertSent.Keys
    ensures |o.sent| <= |targets|
    decreases |targets|
  {
    if targets == [] then Outcome(t, [])
    else
      var n := |targets| - 1;
      assert forall tg :: tg in targets[..n] ==> tg in targets;
      var prior := CycleSpec(t, grace, targets[..n], obs[..n], now);
      var tg := targets[n];
      assert tg in targets;
      var step := PollStep(prior.tables, grace, tg.hostname, tg.ip, obs[n].isUp, now, obs[n].stamp);
      Outcome(step.tables, prior.sent + step.sent)
  }

  /** A cycle touches only the entries of the addresses it polls. */
  lemma {:induction false} CycleLeavesOthersAlone(t: Tables, grace: int, targets: seq<Target>, obs: seq<Observation>, now: int)
    requires |obs| == |targets|
    requires forall tg :: tg in targets ==> tg.ip in t.status && tg.ip in t.alertSent
    ensures forall k :: k !in Ips(targets) ==> SameEntry(t, CycleSpec(t, grace, targets, obs, now).tables, k)
    decreases |targets|
  {
    if targets != [] {
      var n := |targets| - 1;
      assert Ips(targets) == Ips(targets[..n]) + {targets[n].ip} by {
        assert targets == targets[..n] + [targets[n]];
      }
      assert forall tg :: tg in targets[..n] ==> tg in targets;
      CycleLeavesOthersAlone(t, grace, targets[..n], obs[..n], now);
      var prior := CycleSpec(t, grace, targets[..n], obs[..n], now);
      var tg := targets[n];
      var step := PollStep(prior.tables, grace, tg.hostname, tg.ip, obs[n].isUp, now, obs[n].stamp);
      PollLeavesOthersAlone(prior.tables, grace, tg.hostname, tg.ip, obs[n].isUp, now, obs[n].stamp);
      forall k | k !in Ips(targets) ensures SameEntry(t, step.tables, k) {
        assert SameEntry(t, prior.tables, k);
        assert SameEntry(prior.tables, step.tables, k);
      }
    }
  }

  /** A cycle over the first `i + 1` targets is the cycle over the first `i` followed by a
      poll of target `i`. */
  lemma CycleSpecPrefix(t: Tables, grace: int, targets: seq<Target>, obs: seq<Observation>, now: int, i: nat)
    requires |obs| == |targets| && i < |targets|
    requires forall tg :: tg in targets ==> tg.ip in t.status && tg.ip in t.alertSent
    ensures forall tg :: tg in targets[..i] ==> tg in targets
    ensures var prior := CycleSpec(t, grace, targets[..i], obs[..i], now);
            targets[i].ip in prior.tables.status && targets[i].ip in prior.tables.alertSent
    ensures var prior := CycleSpec(t, grace, targets[..i], obs[..i], now);
            var step := PollStep(prior.tables, grace, targets[i].hostname, targets[i].ip, obs[i].isUp, now, obs[i].stamp);
            CycleSpec(t, grace, targets[..i + 1], obs[..i + 1], now) == Outcome(step.tables, prior.sent + step.sent)
  {
    assert targets[..i + 1][..i] == targets[..i] && obs[..i + 1][..i] == obs[..i];
    assert targets[..i + 1][i] == targets[i];
    assert targets[i] in targets;
  }

  /** A non-empty cycle is the cycle over all targets but the last, then a poll of the last. */
  lemma CycleSpecLast(t: Tables, grace: int, targets: seq<Target>, obs: seq<Observation>, now: int)
    requires |obs| == |targets| && targets != []
    requires forall tg :: tg in targets ==> tg.ip in t.status && tg.ip in t.alertSent
    ensures forall tg :: tg in targets[..|targets| - 1] ==> tg in targets
    ensures var n := |targets| - 1;
            var prior := CycleSpec(t, grace, targets[..n], obs[..n], now);
            targets[n].ip in prior.tables.status && targets[n].ip in prior.tables.alertSent
    ensures var n := |targets| - 1;
            var prior := CycleSpec(t, grace, targets[..n], obs[..n], now);
            var step := PollStep(prior.tables, grace, targets[n].hostname, targets[n].ip, obs[n].isUp, now, obs[n].stamp);
            CycleSpec(t, grace, targets, obs, now) == Outcome(step.tables, prior.sent + step.sent)
  {
    assert targets[|targets| - 1] in targets;
  }

  /** A whole cycle keeps the monitor's invariant. */
  lemma {:induction false} CycleKeepsConsistent(t: Tables, grace: int, targets: seq<Target>, obs: seq<Observation>, now: int)
    requires |obs| == |targets|
    requires forall tg :: tg in targets ==> tg.ip in t.status && tg.ip in t.alertSent
    requires Consistent(t)
    ensures Consistent(CycleSpec(t, grace, targets, obs, now).tables)
    decreases |targets|
  {
    if targets != [] {
      var n := |targets| - 1;
      CycleKeepsConsistent(t, grace, targets[..n], obs[..n], now);
      var prior := CycleSpec(t, grace, targets[..n], obs[..n], now);
      PollKeepsConsistent(prior.tables, grace, targets[n].hostname, targets[n].ip, obs[n].isUp, now, obs[n].stamp);
    }
  }

  /** Initialising from a consistent state whose failing hosts are not re-listed keeps the
      invariant; in particular, initialising the empty start-up state establishes it. */
  lemma {:induction false} SeedKeepsConsistent(t: Tables, targets: seq<Target>)
    requires Consistent(t)
    requires forall tg :: tg in targets ==> tg.ip !in t.downSince
    ensures Consistent(Seed(t, targets))
    decreases |targets|
  {
    if targets != [] {
      var n := |targets| - 1;
      assert forall x :: x in targets[..n] ==> x in targets;
      SeedKeepsConsistent(t, targets[..n]);
      assert targets[n] in targets;
      EnrollKeepsConsistent(Seed(t, targets[..n]), targets[n]);
    }
  }

  /** Enrolling an address that is not failing keeps the invariant. */
  lemma EnrollKeepsConsistent(u: Tables, tg: Target)
    requires Consistent(u)
    requires tg.ip !in u.downSince
    ensures Consistent(Enroll(u, tg))
  {
    EnrollKeepsEntries(u, tg);
    EnrollKeepsOrder(u, tg);
  }

  /** Enrolling keeps every entry filed under its own address and in step with
      `down_since` and `alert_sent`. */
  lemma EnrollKeepsEntries(u: Tables, tg: Target)
    requires Consistent(u)
    requires tg.ip !in u.downSince
    ensures var w := Enroll(u, tg);
      && (forall ip :: ip in w.status ==> w.status[ip].ip == ip)
      && (forall ip :: ip in w.status ==> (ip in w.downSince <==> !w.status[ip].isUp))
      && (forall ip :: ip in w.alertSent && w.alertSent[ip] ==> ip in w.downSince)
  {
    var w := Enroll(u, tg);
    forall ip | ip in w.status
      ensures w.status[ip].ip == ip
      ensures ip in w.downSince <==> !w.status[ip].isUp
    {
      if ip != tg.ip {
        assert w.status[ip] == u.status[ip];
      }
    }
    forall ip | ip in w.alertSent && w.alertSent[ip] ensures ip in w.downSince {
      assert ip != tg.ip;
    }
  }

  /** Enrolling keeps the order free of repeats and in step with the status keys. */
  lemma EnrollKeepsOrder(u: Tables, tg: Target)
    requires forall i, j :: 0 <= i < j < |u.order| ==> u.order[i] != u.order[j]
    requires forall ip :: ip in u.status <==> ip in u.order
    ensures var w := Enroll(u, tg);
      && (forall i, j :: 0 <= i < j < |w.order| ==> w.order[i] != w.order[j])
      && (forall ip :: ip in w.status <==> ip in w.order)
  {
    var w := Enroll(u, tg);
    if tg.ip !in u.status {
      forall i, j | 0 <= i < j < |w.order| ensures w.order[i] != w.order[j] {
        if j == |u.order| {
          assert w.order[i] == u.order[i];
          assert u.order[i] in u.status;
        }
      }
    }
  }

  /** After initialisation each address carries the hostname of the last line that lists it. */
  lemma {:induction false} SeedNamesLastLine(t: Tables, targets: seq<Target>, i: nat)
    requires i < |targets|
    requires forall j :: i < j < |targets| ==> targets[j].ip != targets[i].ip
    ensures targets[i].ip in Seed(t, targets).status
    ensures Seed(t, targets).status[targets[i].ip] ==
              HostStatus(targets[i].hostname, targets[i].ip, true, Never)
    decreases |targets|
  {
    var n := |targets| - 1;
    if i < n {
      SeedNamesLastLine(t, targets[..n], i);
    }
  }

  /** The addresses of a nonempty list are those of all but its last line, plus the last. */
  lemma IpsSnoc(targets: seq<Target>)
    requires targets != []
    ensures Ips(targets) == Ips(targets[..|targets| - 1]) + {targets[|targets| - 1].ip}
  {
    assert targets == targets[..|targets| - 1] + [targets[|targets| - 1]];
  }

  /** The addresses of `targets` that are not in `known`, each once, at its first listing,
      in list order. */
  function FirstListings(known: set<string>, targets: seq<Target>): (firsts: seq<string>)
    ensures forall x :: x in firsts <==> x !in known && x in Ips(targets)
    ensures forall i, j :: 0 <= i < j < |firsts| ==> firsts[i] != firsts[j]
    decreases |targets|
  {
    if targets == [] then []
    else
      var n := |targets| - 1;
      IpsSnoc(targets);
      var prior := FirstListings(known, targets[..n]);
      if targets[n].ip in known || targets[n].ip in Ips(targets[..n]) then prior
      else prior + [targets[n].ip]
  }

  /** Address `x` is listed at some line where `y` has not been listed yet. */
  ghost predicate ListedBefore(targets: seq<Target>, x: string, y: string) {
    exists a :: 0 <= a < |targets| && targets[a].ip == x && y !in Ips(targets[..a + 1])
  }

  /** Of two new addresses, the one listed first comes first. */
  lemma {:induction false} FirstListingsOrder(known: set<string>, targets: seq<Target>)
    ensures forall i, j :: 0 <= i < j < |FirstListings(known, targets)| ==>
              ListedBefore(targets, FirstListings(known, targets)[i], FirstListings(known, targets)[j])
    decreases |targets|
  {
    var firsts := FirstListings(known, targets);
    if targets != [] {
      var n := |targets| - 1;
      var prior := FirstListings(known, targets[..n]);
      FirstListingsOrder(known, targets[..n]);
      var x := targets[n].ip;
      assert firsts == prior || (firsts == prior + [x] && x !in Ips(targets[..n]));
      forall i, j | 0 <= i < j < |firsts| ensures ListedBefore(targets, firsts[i], firsts[j]) {
        assert firsts[i] == prior[i] && prior[i] in prior;
        if j < |prior| {
          assert firsts[j] == prior[j];
          ListedBeforeExtends(targets, n, prior[i], prior[j]);
        } else {
          assert firsts[j] == x;
          ListedBeforeNew(targets, n, prior[i], x);
        }
      }
    }
  }

  lemma ListedBeforeExtends(targets: seq<Target>, n: nat, x: string, y: string)
    requires n <= |targets|
    requires ListedBefore(targets[..n], x, y)
    ensures ListedBefore(targets, x, y)
  {
    var a :| 0 <= a < n && targets[..n][a].ip == x && y !in Ips(targets[..n][..a + 1]);
    assert targets[..n][..a + 1] == targets[..a + 1];
  }

  lemma ListedBeforeNew(targets: seq<Target>, n: nat, x: string, y: string)
    requires n <= |targets|
    requires x in Ips(targets[..n]) && y !in Ips(targets[..n])
    ensures ListedBefore(targets, x, y)
  {
    var a := IpListed(targets[..n], x);
    assert targets[..n][..a + 1] == targets[..a + 1];
    assert Ips(targets[..a + 1]) <= Ips(targets[..n]) by {
      forall tg | tg in targets[..a + 1] ensures tg in targets[..n] {
        var k :| 0 <= k <= a && targets[..a + 1][k] == tg;
        assert targets[..n][k] == tg;
      }
    }
  }

  /** A listed address is listed at some index. */
  lemma IpListed(targets: seq<Target>, ip: string) returns (a: nat)
    requires ip in Ips(targets)
    ensures a < |targets| && targets[a].ip == ip
  {
    var tg :| tg in targets && tg.ip == ip;
    var k :| 0 <= k < |targets| && targets[k] == tg;
    a := k;
  }

  /** Initialisation keys `status_data` by the old keys and the listed addresses. */
  lemma {:induction false} SeedKeys(t: Tables, targets: seq<Target>)
    ensures Seed(t, targets).status.Keys == t.status.Keys + Ips(targets)
    decreases |targets|
  {
    if targets != [] {
      IpsSnoc(targets);
      SeedKeys(t, targets[..|targets| - 1]);
    }
  }

  /** The key order initialisation leaves: the old order, then each address not already
      known, at its first listing. A re-listed address keeps its first place. */
  lemma {:induction false} SeedOrder(t: Tables, targets: seq<Target>)
    ensures Seed(t, targets).order == t.order + FirstListings(t.status.Keys, targets)
    decreases |targets|
  {
    if targets != [] {
      var n := |targets| - 1;
      var prior := Seed(t, targets[..n]);
      var tg := targets[n];
      SeedOrder(t, targets[..n]);
      SeedKeys(t, targets[..n]);
      assert Seed(t, targets) == Enroll(prior, tg);
      assert tg.ip in prior.status <==> tg.ip in t.status.Keys || tg.ip in Ips(targets[..n]);
      IpsSnoc(targets);
    }
  }

  /** The ALERT and RECOVERY messages about address `ip`, in the order they were sent. */
  function About(sent: seq<Notification>, ip: string): (r: seq<Notification>)
    ensures |r| <= |sent|
    ensures forall m :: m in r <==> m in sent && (m.Alert? || m.Recovery?) && m.ip == ip
    decreases |sent|
  {
    if sent == [] then []
    else
      var n := |sent| - 1;
      var m := sent[n];
      assert sent == sent[..n] + [m];
      About(sent[..n], ip) + (if (m.Alert? || m.Recovery?) && m.ip == ip then [m] else [])
  }

  lemma {:induction false} AboutConcat(a: seq<Notification>, b: seq<Notification>, ip: string)
    ensures About(a + b, ip) == About(a, ip) + About(b, ip)
    decreases |b|
  {
    if b == [] {
      assert a + b == a;
    } else {
      var n := |b| - 1;
      assert (a + b)[..|a + b| - 1] == a + b[..n];
      AboutConcat(a, b[..n], ip);
    }
  }

  /** Messages that are all about `ip` are kept whole. */
  lemma {:induction false} AboutAll(sent: seq<Notification>, ip: string)
    requires forall m :: m in sent ==> (m.Alert? || m.Recovery?) && m.ip == ip
    ensures About(sent, ip) == sent
    decreases |sent|
  {
    if sent != [] {
      var n := |sent| - 1;
      assert forall m :: m in sent[..n] ==> m in sent;
      AboutAll(sent[..n], ip);
      assert sent[n] in sent;
      assert sent == sent[..n] + [sent[n]];
    }
  }

  /** Messages none of which is about `ip` have nothing about it. */
  lemma AboutNone(sent: seq<Notification>, ip: string)
    requires forall m :: m in sent ==> !((m.Alert? || m.Recovery?) && m.ip == ip)
    ensures About(sent, ip) == []
  {
    assert forall m :: m !in About(sent, ip);
  }

  lemma SameEntryTrans(a: Tables, b: Tables, c: Tables, ip: string)
    requires SameEntry(a, b, ip) && SameEntry(a, c, ip)
    ensures SameEntry(b, c, ip)
  {
  }

  /** A poll of another address keeps what is known about `ip`. */
  lemma AfterOtherPoll(pt: Tables, priorSent: seq<Notification>, grace: int, tg: Target, ob: Observation, now: int,
                       ip: string, p: Outcome)
    requires tg.ip in pt.status && tg.ip in pt.alertSent && tg.ip != ip
    requires SameEntry(pt, p.tables, ip) && About(priorSent, ip) == p.sent
    ensures var step := PollStep(pt, grace, tg.hostname, tg.ip, ob.isUp, now, ob.stamp);
            SameEntry(step.tables, p.tables, ip) && About(priorSent + step.sent, ip) == p.sent
  {
    var step := PollStep(pt, grace, tg.hostname, tg.ip, ob.isUp, now, ob.stamp);
    PollLeavesOthersAlone(pt, grace, tg.hostname, tg.ip, ob.isUp, now, ob.stamp);
    assert SameEntry(pt, step.tables, ip);
    SameEntryTrans(pt, step.tables, p.tables, ip);
    PollSentNamesHost(pt, grace, tg.hostname, tg.ip, ob.isUp, now, ob.stamp);
    AboutNone(step.sent, ip);
    AboutConcat(priorSent, step.sent, ip);
  }

  /** The poll of `ip` itself, on a state that agrees with `t` about `ip`, after messages
      none of which is about `ip`, is a poll of `ip` on `t`. */
  lemma AfterOwnPoll(t: Tables, pt: Tables, priorSent: seq<Notification>, grace: int, h: string, ip: string,
                     isUp: bool, now: int, stamp: string)
    requires ip in t.status && ip in t.alertSent
    requires SameEntry(t, pt, ip) && About(priorSent, ip) == []
    ensures var step := PollStep(pt, grace, h, ip, isUp, now, stamp);
            var p := PollStep(t, grace, h, ip, isUp, now, stamp);
            SameEntry(step.tables, p.tables, ip) && About(priorSent + step.sent, ip) == p.sent
  {
    var step := PollStep(pt, grace, h, ip, isUp, now, stamp);
    PollStepLocal(t, pt, grace, h, ip, isUp, now, stamp);
    PollSentNamesHost(pt, grace, h, ip, isUp, now, stamp);
    AboutAll(step.sent, ip);
    AboutConcat(priorSent, step.sent, ip);
  }

  /** Every message of a sweep is an ALERT or a RECOVERY about one of the listed addresses. */
  lemma {:induction false} CycleSentFrom(t: Tables, grace: int, targets: seq<Target>, obs: seq<Observation>, now: int)
    requires |obs| == |targets|
    requires forall tg :: tg in targets ==> tg.ip in t.status && tg.ip in t.alertSent
    ensures forall m :: m in CycleSpec(t, grace, targets, obs, now).sent ==>
              (m.Alert? || m.Recovery?) && m.ip in Ips(targets)
    decreases |targets|
  {
    if targets != [] {
      var n := |targets| - 1;
      IpsSnoc(targets);
      assert forall tg :: tg in targets[..n] ==> tg in targets;
      CycleSentFrom(t, grace, targets[..n], obs[..n], now);
      var prior := CycleSpec(t, grace, targets[..n], obs[..n], now);
      var tg := targets[n];
      assert tg in targets;
      PollSentNamesHost(prior.tables, grace, tg.hostname, tg.ip, obs[n].isUp, now, obs[n].stamp);
    }
  }

  /** A sweep seen from one address listed once, at index `i`: that address ends with the
      entries of a single poll of it on the starting state, and the messages about it are
      exactly that poll's. Polls of the other targets neither see nor change its entries. */
  lemma {:induction false} CycleProjects(t: Tables, grace: int, targets: seq<Target>, obs: seq<Observation>, now: int, i: nat)
    requires |obs| == |targets|
    requires forall tg :: tg in targets ==> tg.ip in t.status && tg.ip in t.alertSent
    requires i < |targets|
    requires forall j :: 0 <= j < |targets| && j != i ==> targets[j].ip != targets[i].ip
    ensures targets[i].ip in t.status && targets[i].ip in t.alertSent
    ensures var ip := targets[i].ip;
            var o := CycleSpec(t, grace, targets, obs, now);
            var p := PollStep(t, grace, targets[i].hostname, ip, obs[i].isUp, now, obs[i].stamp);
            SameEntry(o.tables, p.tables, ip) && About(o.sent, ip) == p.sent
    decreases |targets|
  {
    var n := |targets| - 1;
    var ip := targets[i].ip;
    assert targets[i] in targets;
    assert forall tg :: tg in targets[..n] ==> tg in targets;
    var prior := CycleSpec(t, grace, targets[..n], obs[..n], now);
    var tg := targets[n];
    assert tg in targets;
    var step := PollStep(prior.tables, grace, tg.hostname, tg.ip, obs[n].isUp, now, obs[n].stamp);
    CycleSpecLast(t, grace, targets, obs, now);
    if i < n {
      assert targets[..n][i] == targets[i];
      CycleProjects(t, grace, targets[..n], obs[..n], now, i);
      var p := PollStep(t, grace, targets[i].hostname, ip, obs[i].isUp, now, obs[i].stamp);
      AfterOtherPoll(prior.tables, prior.sent, grace, tg, obs[n], now, ip, p);
    } else {
      assert ip !in Ips(targets[..n]);
      CycleLeavesOthersAlone(t, grace, targets[..n], obs[..n], now);
      CycleSentFrom(t, grace, targets[..n], obs[..n], now);
      AboutNone(prior.sent, ip);
      AfterOwnPoll(t, prior.tables, prior.sent, grace, tg.hostname, ip, obs[n].isUp, now, obs[n].stamp);
    }
  }
}
