/** The daily summary: the targets whose last poll left them marked down, in target-list
    order, or the all-clear message when there are none. */
module Summary {
  import opened Targets
  import opened HostState

  /** A target counts as down when its `status_data` entry says so; an address with no
      entry counts as up. */
  predicate IsDown(status: map<string, HostStatus>, ip: string) {
    ip in status && !status[ip].isUp
  }

  /** The down targets, kept in the order of the target list. */
  function DownHosts(status: map<string, HostStatus>, targets: seq<Target>): (down: seq<Target>)
    ensures |down| <= |targets|
    ensures forall tg :: tg in down ==> tg in targets && IsDown(status, tg.ip)
    decreases |targets|
  {
    if targets == [] then []
    else
      var n := |targets| - 1;
      DownHosts(status, targets[..n]) + (if IsDown(status, targets[n].ip) then [targets[n]] else [])
  }

  /** The one message the summary sends. */
  function Digest(down: seq<Target>): (r: Notification)
    ensures r == DailyAllUp <==> down == []
    ensures r.DailyDown? ==> r.hosts == down
    ensures r.DailyAllUp? || r.DailyDown?
  {
    if down == [] then DailyAllUp else DailyDown(down)
  }

  /** A target is listed exactly when it is in the target list and down. */
  lemma {:induction false} DownHostsMembers(status: map<string, HostStatus>, targets: seq<Target>)
    ensures forall tg :: tg in DownHosts(status, targets) <==> tg in targets && IsDown(status, tg.ip)
    decreases |targets|
  {
    if targets != [] {
      var n := |targets| - 1;
      DownHostsMembers(status, targets[..n]);
      assert targets == targets[..n] + [targets[n]];
    }
  }

  /** The list is built in target order: summarising two stretches of the target list and
      joining the results is summarising the whole list. */
  lemma {:induction false} DownHostsConcat(status: map<string, HostStatus>, a: seq<Target>, b: seq<Target>)
    ensures DownHosts(status, a + b) == DownHosts(status, a) + DownHosts(status, b)
    decreases |b|
  {
    if b == [] {
      assert a + b == a;
    } else {
      var n := |b| - 1;
      assert (a + b)[..|a + b| - 1] == a + b[..n];
      DownHostsConcat(status, a, b[..n]);
    }
  }

  /** The summary is the all-clear message exactly when no listed target is down, and
      otherwise names exactly the down targets. */
  lemma DigestChoice(status: map<string, HostStatus>, targets: seq<Target>)
    ensures Digest(DownHosts(status, targets)) == DailyAllUp <==>
              forall tg :: tg in targets ==> !IsDown(status, tg.ip)
    ensures Digest(DownHosts(status, targets)).DailyDown? ==>
              Digest(DownHosts(status, targets)).hosts == DownHosts(status, targets)
  {
    DownHostsMembers(status, targets);
    var down := DownHosts(status, targets);
    if down != [] {
      assert down[0] in down;
    }
  }
}
