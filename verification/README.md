# Host ping monitor: a Dafny model of the monitoring engine

`monitor_web.py` is a small host monitor. It reads a list of `hostname,ip` lines, pings
every host over and over, and keeps three dictionaries:
- `status_data` holds each host's entry: hostname, ip, `is_up` and `last_change`;
- `down_since` holds when the current run of failures began;
- `alert_sent` says whether an ALERT went out for that run.

It posts ALERT and RECOVERY messages to a webhook, sends a daily summary of the hosts that
are down, and serves a dashboard and a JSON feed that list the hosts with the down ones
first.

This project models that engine and proves what it does.

- `targets.dfy` (module `Targets`) covers reading `ips.txt`. It models Python's `str.strip`
  with the `str.isspace` character set, `split(",", 1)` and the rule for skipping lines.
- `host_state.dfy` (module `HostState`) holds the dictionaries as one value, `Tables`.
  Python keeps insertion order for dictionary keys; `Tables.order` records it.
  - `PollStep` is one pass of the poll loop body for one host.
  - `Enroll`/`Seed` are the initialisation loop.
  - `CycleSpec` is one sweep over all targets.
  - The invariant `Consistent` is proved to be kept by `PollStep` and `CycleSpec`. `Enroll`
    and `Seed` keep it when no host they add is already in `down_since`, which holds at start-up.
- `episodes.dfy` (module `Episodes`) follows one host through a run of polls (`Replay`) and
  proves the alerting rules:
  - at most one ALERT per run of failures;
  - the ALERT comes exactly when the grace period has run out;
  - a run of failures ended by a success always ends in exactly one RECOVERY.
- `runs.dfy` (module `Runs`) runs the `while True` loop for any number of sweeps (`Sweeps`).
  It proves that for an address listed once, the sweeps leave its entries and send the
  messages about it exactly as `Replay` of its own probe results does. The alerting rules
  of `Episodes` therefore hold for the monitor as it polls every host in turn.
- `summary.dfy` (module `Summary`) covers `daily_summary`.
- `dashboard.dfy` (module `Dashboard`) covers `list(status_data.values())` and the stable
  sort on `is_up`. The sort is in place, on an array.
- `monitor.dfy` (module `Monitoring`) is the running program: class `Monitor` holds the
  dictionaries as fields and the webhook as a log of messages. Each method is proved to do
  to the fields exactly what the matching function says.

Three facts about `monitor_web.py` shape the alerting rules:
- `is_up` is set to the raw probe result on every poll (line 133). A single failed poll
  therefore shows the host as down, and the next successful poll sends a RECOVERY although
  no ALERT went out (`Episodes.BlipSendsRecoveryWithoutAlert`).
- `last_change` is written only in the ALERT branch (lines 127-130) and the RECOVERY branch
  (lines 113-116), not on every change of `is_up`.
- The first failed poll of a run only records `down_since` (line 122). So even with a grace
  period of zero, the ALERT comes on the second failed poll at the earliest.

## Model

| member | source | states |
|---|---|---|
| Targets.Strip | monitor_web.py:87-89 | `str.strip()`: the result is one contiguous stretch of the line with only whitespace before and after it, it has no leading or trailing whitespace itself, and it is empty exactly when the line is all whitespace |
| Targets.StripKeepsCommas | monitor_web.py:87-88 | stripping removes only whitespace, so it keeps every comma of the line |
| Targets.SplitFirstComma | monitor_web.py:88 | `split(",", 1)`: the two parts joined by a comma give back the string, and the first part has no comma |
| Targets.SplitFirstCommaUnique | monitor_web.py:88 | any way of writing the string as a comma-free part, a comma and a rest is the split that is returned |
| Targets.ParseLineShape | monitor_web.py:87-89 | a line is skipped exactly when it is blank or has no comma; otherwise both fields are stripped, the hostname has no comma, and the ip keeps every comma after the first |
| Targets.ParseLineFields | monitor_web.py:87-89 | a line whose stripped text is `before,after` (no comma in `before`) gives the target `(before.strip(), after.strip())` |
| Targets.ParseLine | monitor_web.py:87-89 | a line gives no target exactly when it has no comma or is all whitespace; otherwise both fields come out stripped |
| Targets.ParseTargets | monitor_web.py:84-89 | the file gives at most one target per line |
| Targets.ParseTargetsConcat | monitor_web.py:84-89 | lines are parsed one at a time, in file order: parsing two stretches of lines and joining the results is parsing the whole |
| Targets.ParseTargetsFromLines | monitor_web.py:84-89 | every target comes from some line of the file |
| Targets.LoadTargets | monitor_web.py:84-89 | the loop over the file builds exactly the list `ParseTargets` describes |
| HostState.PollStep | monitor_web.py:107-133 | one poll keeps the set of known hosts and their order. It sets `is_up` to the probe result and keeps hostname and ip. A success removes the host from `down_since`. A failure keeps the first failure's time, or records `now`. At most one message is sent |
| HostState.PollLeavesOthersAlone | monitor_web.py:107-133 | a poll of one address changes no other host's entries and renames no host |
| HostState.PollKeepsConsistent | monitor_web.py:107-133 | a poll keeps the invariant: the same keys in `status_data` and `alert_sent`, `down_since` only for known hosts, each entry filed under its own ip, in `down_since` exactly when shown down, alert only while in `down_since`, key order without repeats |
| HostState.Seed | monitor_web.py:92-99 | initialisation leaves `down_since` as it was |
| HostState.Enroll | monitor_web.py:93-99 | enrolling one line adds its address to `status_data` and `alert_sent` (and to no other dictionary), shows it up with no alert sent, and leaves every other address's entries alone |
| HostState.SeedEntries | monitor_web.py:92-99 | every listed address gets an entry that is up, `last_change` "Never" and alert flag false; other addresses are left alone |
| HostState.SeedNamesLastLine | monitor_web.py:92-99 | an address listed more than once carries the hostname of its last line |
| HostState.SeedKeepsConsistent | monitor_web.py:92-99 | initialisation keeps the invariant when no listed host is failing, in particular from the empty start-up state |
| HostState.SeedKeys | monitor_web.py:92-99 | after initialisation the known addresses are the old ones plus every listed address |
| HostState.SeedOrder | monitor_web.py:92-99 | initialisation appends to the key order each listed address not already known, once, at its first listing; addresses already known keep their place |
| HostState.FirstListings | monitor_web.py:92-99 | the addresses new to the dictionary: each exactly once, and only those |
| HostState.FirstListingsOrder | monitor_web.py:92-99 | the new addresses come in order of first listing: of any two, the earlier one is listed on a line before the later one has been listed at all |
| HostState.CycleSpec | monitor_web.py:105-133 | a sweep over the targets keeps the set of known hosts and their order, and sends no more messages than there are targets |
| HostState.CycleLeavesOthersAlone | monitor_web.py:107-133 | a sweep changes only the entries of the addresses it polls |
| HostState.CycleKeepsConsistent | monitor_web.py:104-133 | every sweep keeps the invariant |
| HostState.PollStepLocal | monitor_web.py:107-133 | a poll of an address reads only that address's entries: on two states that agree about it, it leaves the same entries for it and sends the same messages |
| HostState.PollSentNamesHost | monitor_web.py:117-126 | every message a poll sends is an ALERT or a RECOVERY naming the polled hostname and address |
| HostState.About | monitor_web.py:117-126 | the messages about one address: exactly the ALERTs and RECOVERYs naming it, never more than were sent |
| HostState.CycleSentFrom | monitor_web.py:107-133 | every message of a sweep is an ALERT or a RECOVERY about a listed address |
| HostState.CycleProjects | monitor_web.py:107-133 | for an address listed once, a sweep leaves its entries as a single poll of it on the starting state does, and the messages about it are exactly that poll's |
| Episodes.PollNotifications | monitor_web.py:111-131 | a poll sends nothing, one ALERT (with the grace period in whole minutes, rounded down) or one RECOVERY. The ALERT is sent exactly when the probe failed, the host was already failing, the grace period has run out and no alert went out. The RECOVERY is sent exactly when the probe succeeded and the host was shown down |
| Episodes.PollWritesOnlyWithMessages | monitor_web.py:111-131 | `last_change` and `alert_sent` change only on a poll that sends a message; either message stamps `last_change`, an ALERT sets the flag and a RECOVERY clears it |
| Episodes.FailureRunAlertsAtMostOnce | monitor_web.py:120-131 | a run of failed polls sends at most one ALERT, none if one already went out, and no RECOVERY; afterwards the flag is set exactly when it was set before or the run alerted |
| Episodes.FailureRunKeepsFirstFailure | monitor_web.py:120-133 | during a run of failures `down_since` holds the time of the run's first failure, and the host is shown down |
| Episodes.PendingRunAlerts | monitor_web.py:121-131 | for a host already failing, a run of failed polls alerts exactly when no alert went out yet and some poll comes at least the grace period after the recorded first failure |
| Episodes.AlertIffGraceElapsed | monitor_web.py:120-131 | for a host that was up, a run of failed polls sends exactly one ALERT if some later poll comes at least the grace period after the first failure, and none otherwise |
| Episodes.UpHostStaysQuiet | monitor_web.py:111-119 | polling an up host that keeps answering sends nothing and changes neither its entry nor its flag |
| Episodes.DownRunEndsInRecovery | monitor_web.py:111-133 | failed polls followed by one success end with a RECOVERY, the only one of the run. They leave the host up, out of `down_since`, with its flag clear and `last_change` set to the successful poll's stamp |
| Episodes.BlipSendsRecoveryWithoutAlert | monitor_web.py:111-133 | one failed poll of an up host followed by one success sends only a RECOVERY |
| Episodes.Replay | monitor_web.py:107-133 | polling one host over and over keeps the set of known hosts, and the total number of messages is at most the number of polls |
| Runs.Sweeps | monitor_web.py:104-133 | repeated sweeps keep the set of known hosts and their order; the total number of messages is at most the number of sweeps times the number of targets |
| Runs.SweepsKeepConsistent | monitor_web.py:104-133 | the invariant holds after any number of sweeps |
| Runs.ReplayLocal | monitor_web.py:107-133 | a run of polls of one address depends only on that address's entries |
| Runs.SweepsProject | monitor_web.py:104-133 | for an address listed once, the sweeps leave its entries and send the messages about it exactly as polling that host alone with its own probe results does |
| Runs.MonitorAlertsOncePerFailureRun | monitor_web.py:104-133 | for an address listed once: while the host fails every sweep, the monitor sends at most one ALERT about it, none if one already went out, and no RECOVERY |
| Runs.MonitorAlertIffGraceElapsed | monitor_web.py:104-133 | for an address listed once: a host that was up and then fails every sweep gets exactly one ALERT if some later sweep comes at least the grace period after the first failed one, and none otherwise |
| Runs.MonitorQuietWhileUp | monitor_web.py:104-133 | for an address listed once: an up host that answers every sweep gets no message, and its entry and alert flag do not change |
| Runs.MonitorRecovers | monitor_web.py:104-133 | for an address listed once: a host that fails some sweeps and then answers gets a RECOVERY as the last message about it, the only one, and ends up, out of `down_since`, with its flag clear and `last_change` set to that sweep's stamp |
| Summary.DownHostsMembers | monitor_web.py:65-69 | a target is listed exactly when it is in the target list and its entry says it is down; an address with no entry counts as up |
| Summary.DownHostsConcat | monitor_web.py:66-69 | the down hosts are listed in target-list order |
| Summary.DownHosts | monitor_web.py:65-69 | only listed targets whose entry says down are reported, and no more than there are listings |
| Summary.DigestChoice | monitor_web.py:71-75 | the summary is the all-clear message exactly when no target is down, and otherwise lists the down hosts |
| Summary.Digest | monitor_web.py:71-75 | the message is the all-clear exactly when no host is down, and otherwise carries the down hosts |
| Dashboard.RowsFollowOrder | monitor_web.py:147 | `status_data.values()` gives one row per key, in the keys' insertion order |
| Dashboard.RowsShowEveryHost | monitor_web.py:147 | under the invariant, every known host has a row |
| Dashboard.Rows | monitor_web.py:147 | there is at most one row per key, and each row is an entry of `status_data` |
| Dashboard.DownFirstOrdered | monitor_web.py:150 | after the sort no up row comes before a down row |
| Dashboard.DownFirst | monitor_web.py:150 | the sort keeps the number of rows |
| Dashboard.DownFirstPermutes | monitor_web.py:150 | the sort neither loses nor duplicates a row |
| Dashboard.DownFirstStable | monitor_web.py:150 | the sort is stable: the down rows and the up rows each keep their order |
| Dashboard.DownFirstUnique | monitor_web.py:150 | any arrangement that is ordered and stable in this sense is the result of the sort |
| Dashboard.SortDownFirst | monitor_web.py:150 | sorting the array in place leaves exactly `DownFirst` of its old contents |
| Monitoring.Monitor.constructor | monitor_web.py:23-25 | the dictionaries start empty and the invariant holds |
| Monitoring.Monitor.Init | monitor_web.py:92-99 | the loop leaves the dictionaries as `Seed` says, sends nothing, and keeps the invariant |
| Monitoring.Monitor.Poll | monitor_web.py:107-133 | the fields change as `PollStep` says, the webhook log grows by its messages, and the invariant is kept |
| Monitoring.Monitor.Cycle | monitor_web.py:105-133 | the fields change as `CycleSpec` says, the log grows by its messages, and the invariant is kept |
| Monitoring.Monitor.DailySummary | monitor_web.py:63-75 | exactly one message is sent, built from the down hosts in target order |
| Monitoring.Monitor.StatusRows | monitor_web.py:147-163 | the rows served are the entries in key order, sorted down-first and stable |

## Left out

- `ping_host` (a `ping` subprocess) is not modelled: its result is a parameter of each poll, `isUp`.
- `send_webhook` is not modelled as an HTTP post. A message handed to it is appended to the
  log `Monitor.log` as a `Notification` that carries the fields the text is made from: the
  hostname, the ip, the minutes, or the list of down hosts. The emoji and wording of the text,
  the missing-URL warning and the HTTP status handling are not modelled.
- Reading `ips.txt` is not modelled: the file is a parameter, a sequence of lines.
- Environment configuration (`os.getenv`) is not modelled: `GRACE_PERIOD` is the constructor
  argument `grace`. `PING_COUNT`, `PING_PARAM` and `DAILY_HOUR_UTC` are not modelled.
- `time.time()` is a float; the model takes the cycle's clock reading as an integer parameter `now`.
- The `strftime` stamp written to `last_change` is a parameter, one per poll.
- `schedule`, `schedule.run_pending()` and `time.sleep(1)` are not modelled. A cycle is
  `Monitor.Cycle`, and the daily summary is `Monitor.DailySummary`, called whenever the
  schedule fires. The `while True` loop is `Runs.Sweeps` over a finite list of rounds; it
  does not interleave daily summaries, which send messages but change no dictionary.
- Runs.SweepsProject: holds for an address listed once. An address listed on several lines
  is polled several times per sweep, possibly under different hostnames, so its polls are not
  one `Replay` with a single hostname. For it the model proves only the invariant and the
  frame lemmas.
- Runs.MonitorAlertsOncePerFailureRun: holds for an address listed once, for the reason given
  for `Runs.SweepsProject`, on which it rests.
- Runs.MonitorAlertIffGraceElapsed: holds for an address listed once, for the same reason.
- Runs.MonitorQuietWhileUp: holds for an address listed once, for the same reason.
- Runs.MonitorRecovers: holds for an address listed once, for the same reason.
- Flask, `render_template`, `jsonify` and the threads are not modelled. The two routes share
  `Monitor.StatusRows`; their `last_updated` stamp is not modelled.
- The monitor thread and the web thread read the dictionaries concurrently. This concurrency
  is not modelled: each method runs without interruption.
- HostState.PollStep: requires the address to be in `alert_sent` on every poll. The source reads it only
  on a failed poll of a host already in `down_since`, and raises `KeyError` if it is missing.
  Initialisation gives every target that entry, so the case cannot arise.
- Timsort itself is not modelled: the array is sorted by moving each down row back past the
  up rows already placed. `Dashboard.DownFirstUnique` shows that only one result is
  both ordered and stable, so the sorted rows are the same.
