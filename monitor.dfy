/**
 * One poll cycle of `main`: given the components fetched this cycle, warn about targets
 * that are not on the status page, and for every matched target whose status differs
 * from the last one seen, emit an alert and remember the new status in `last_statuses`.
 */
module Monitor {
  import opened Wrappers
  import AsciiText
  import opened Config
  import opened OrderedDict
  import opened Matcher
  import opened Notifier

  /** The "NOT FOUND" warnings: each cleaned target that has no match, in target order. */
  function NotFound(targets: seq<string>, entries: map<string, Match>): seq<string>
    decreases |targets|
  {
    if targets == [] then []
    else
      var t := targets[|targets| - 1];
      NotFound(targets[..|targets| - 1], entries) + (if t !in entries then [t] else [])
  }

  /** `current_status != last_statuses.get(loc)`: a status never seen before counts as a change. */
  predicate Changed(last: map<string, string>, loc: string, status: string) {
    loc !in last || last[loc] != status
  }

  /** The alert for matched target `loc`. */
  function AlertFor(entries: map<string, Match>, loc: string): Alert
    requires loc in entries
  {
    Alert(loc, entries[loc].componentName, entries[loc].status)
  }

  /** Every listed key has an entry. */
  ghost predicate Listed(order: seq<string>, entries: map<string, Match>) {
    forall i :: 0 <= i < |order| ==> order[i] in entries
  }

  /** The alerts of the change-detection loop over the first `n` keys of `order`, judged
      against `last`. */
  function ChangeAlerts(order: seq<string>, entries: map<string, Match>, last: map<string, string>, n: nat): seq<Alert>
    requires n <= |order| && Listed(order, entries)
  {
    if n == 0 then []
    else
      var loc := order[n - 1];
      ChangeAlerts(order, entries, last, n - 1)
      + (if Changed(last, loc, entries[loc].status) then [AlertFor(entries, loc)] else [])
  }

  /** `last_statuses` after the loop has visited the first `n` keys of `order`, starting
      from `last`: each visited key whose status changed is set to its matched status. */
  function Recorded(last: map<string, string>, order: seq<string>, entries: map<string, Match>, n: nat): map<string, string>
    requires n <= |order| && Listed(order, entries)
  {
    if n == 0 then last
    else
      var r := Recorded(last, order, entries, n - 1);
      var loc := order[n - 1];
      if Changed(r, loc, entries[loc].status) then r[loc := entries[loc].status] else r
  }

  /** The status recorded for every matched target. */
  function StatusesOf(entries: map<string, Match>): map<string, string> {
    map t | t in entries :: entries[t].status
  }

  /** The posts `send_slack_alert` makes for `alerts`, all at time `ts`. */
  function Outbox(webhook: Option<string>, alerts: seq<Alert>, ts: int): seq<Request>
    decreases |alerts|
  {
    if alerts == [] then []
    else
      var rest := Outbox(webhook, alerts[..|alerts| - 1], ts);
      var req := SlackAlert(webhook, alerts[|alerts| - 1], ts);
      if req.Some? then rest + [req.value] else rest
  }

  /** With a webhook set, every alert is posted, in order, as its own Slack request; without
      one, nothing is posted. */
  lemma {:induction false} OutboxPosts(webhook: Option<string>, alerts: seq<Alert>, ts: int)
    ensures var r := Outbox(webhook, alerts, ts);
            (webhook.None? || webhook.value == "" ==> r == [])
            && (webhook.Some? && webhook.value != "" ==> |r| == |alerts|)
            && forall i :: 0 <= i < |r| ==> Some(r[i]) == SlackAlert(webhook, alerts[i], ts)
    decreases |alerts|
  {
    if alerts != [] {
      var init := alerts[..|alerts| - 1];
      OutboxPosts(webhook, init, ts);
      var r := Outbox(webhook, alerts, ts);
      var rest := Outbox(webhook, init, ts);
      forall i | 0 <= i < |r| ensures Some(r[i]) == SlackAlert(webhook, alerts[i], ts) {
        if i < |rest| {
          assert r[i] == rest[i] && alerts[i] == init[i];
        }
      }
    }
  }

  lemma OutboxSnoc(webhook: Option<string>, alerts: seq<Alert>, a: Alert, ts: int)
    ensures Outbox(webhook, alerts + [a], ts) ==
            Outbox(webhook, alerts, ts) + (if SlackAlert(webhook, a, ts).Some? then [SlackAlert(webhook, a, ts).value] else [])
  {
    assert (alerts + [a])[..|alerts|] == alerts;
  }

  /** Everything one cycle produces. */
  datatype CycleResult = CycleResult(alerts: seq<Alert>, notFound: seq<string>, statuses: map<string, string>)

  /** A whole cycle against the remembered statuses `last`. An empty fetch does nothing. */
  function Cycle(last: map<string, string>, components: seq<Component>, targets: seq<string>): CycleResult {
    if components == [] then CycleResult([], [], last)
    else
      var cleaned := CleanAll(targets);
      var m := MatchAll(components, cleaned);
      MatchAllKeysAreTargets(components, cleaned);
      CycleResult(ChangeAlerts(m.keys, m.entries, last, |m.keys|), NotFound(cleaned, m.entries), last + StatusesOf(m.entries))
  }

  /** The "NOT FOUND" loop: the cleaned targets missing from the matches, in order. */
  method ReportMissing(cleaned: seq<string>, entries: map<string, Match>) returns (notFound: seq<string>)
    ensures notFound == NotFound(cleaned, entries)
  {
    notFound := [];
    var i := 0;
    while i < |cleaned|
      invariant 0 <= i <= |cleaned|
      invariant notFound == NotFound(cleaned[..i], entries)
    {
      assert cleaned[..i + 1][..i] == cleaned[..i];
      var loc := cleaned[i];
      if loc !in entries {
        notFound := notFound + [loc];
      }
      i := i + 1;
    }
    assert cleaned[..i] == cleaned;
  }

  /** The running monitor: its configuration and the module-level `last_statuses`. */
  class Monitor {
    /** `TARGET_LOCATIONS` */
    const targets: seq<string>
    /** `SLACK_WEBHOOK_URL` */
    const webhook: Option<string>
    /** `last_statuses`: target location to the last status alerted for it. */
    var lastStatuses: map<string, string>

    constructor (targetsEnv: Option<string>, webhookEnv: Option<string>)
      ensures targets == TargetLocations(targetsEnv) && webhook == webhookEnv
      ensures lastStatuses == map[]
    {
      targets := TargetLocations(targetsEnv);
      webhook := webhookEnv;
      lastStatuses := map[];
    }

    /** One pass through the body of `main`'s loop, `now` standing for the clock. Returns the
        alerts raised, the targets reported as not found, and the webhook posts made. */
    method ProcessCycle(components: seq<Component>, now: int)
      returns (alerts: seq<Alert>, notFound: seq<string>, posts: seq<Request>)
      modifies this
      ensures CycleResult(alerts, notFound, lastStatuses) == Cycle(old(lastStatuses), components, targets)
      ensures posts == Outbox(webhook, alerts, now)
    {
      if |components| == 0 {
        return [], [], [];
      }
      var currentMatches := FindMatchingComponents(components, targets);
      var cleaned := CleanAll(targets);
      MatchAllKeysAreTargets(components, cleaned);
      var entries := currentMatches.entries;
      var order := currentMatches.keys;

      notFound := ReportMissing(cleaned, entries);

      ghost var last0 := lastStatuses;
      assert Listed(order, entries) && Distinct(order);
      alerts, posts := DetectChanges(order, entries, now);
      RecordedIsStatuses(last0, order, entries);
    }

    /** The "Detect status changes" loop over the matches in dictionary order: alert on
        every changed status and record it. */
    method DetectChanges(order: seq<string>, entries: map<string, Match>, now: int)
      returns (alerts: seq<Alert>, posts: seq<Request>)
      requires Listed(order, entries) && Distinct(order)
      modifies this
      ensures lastStatuses == Recorded(old(lastStatuses), order, entries, |order|)
      ensures alerts == ChangeAlerts(order, entries, old(lastStatuses), |order|)
      ensures posts == Outbox(webhook, alerts, now)
    {
      alerts, posts := [], [];
      ghost var last0 := lastStatuses;
      var k := 0;
      while k < |order|
        invariant 0 <= k <= |order|
        invariant lastStatuses == Recorded(last0, order, entries, k)
        invariant alerts == ChangeAlerts(order, entries, last0, k)
        invariant posts == Outbox(webhook, alerts, now)
      {
        var loc := order[k];
        var data := entries[loc];
        var currentStatus := data.status;
        var prevStatus := Get(lastStatuses, loc);
        VisitStep(last0, order, entries, k);
        if Some(currentStatus) != prevStatus {
          var alert := Alert(loc, data.componentName, currentStatus);
          var post := SlackAlert(webhook, alert, now);
          OutboxSnoc(webhook, alerts, alert, now);
          alerts := alerts + [alert];
          posts := posts + (if post.Some? then [post.value] else []);
          lastStatuses := lastStatuses[loc := currentStatus];
        }
        k := k + 1;
      }
    }
  }

  // ---------------------------------------------------------------------------
  // Properties
  // ---------------------------------------------------------------------------

  /** After visiting the first `n` keys, a visited key holds its matched status and any
      other key holds what it held before the loop. */
  lemma {:induction false} RecordedAt(last: map<string, string>, order: seq<string>,
                                      entries: map<string, Match>, n: nat, x: string)
    requires n <= |order| && Listed(order, entries)
    ensures Get(Recorded(last, order, entries, n), x) ==
            if x in order[..n] then Some(entries[x].status) else Get(last, x)
  {
    if n > 0 {
      RecordedAt(last, order, entries, n - 1, x);
      assert order[..n] == order[..n - 1] + [order[n - 1]];
    }
  }

  /** With no key listed twice, the loop reads for each key the status from before the
      cycle. */
  lemma NotYetRecorded(last: map<string, string>, order: seq<string>, entries: map<string, Match>, k: nat)
    requires Listed(order, entries) && Distinct(order) && k < |order|
    ensures Get(Recorded(last, order, entries, k), order[k]) == Get(last, order[k])
  {
    RecordedAt(last, order, entries, k, order[k]);
    var visited := order[..k];
    forall i | 0 <= i < k ensures visited[i] != order[k] {
      assert visited[i] == order[i];
    }
  }

  /** One turn of the loop at position `k`: it alerts and records exactly when the matched
      status differs from the one recorded before the cycle. */
  lemma VisitStep(last: map<string, string>, order: seq<string>, entries: map<string, Match>, k: nat)
    requires Listed(order, entries) && Distinct(order) && k < |order|
    ensures var loc := order[k];
            var status := entries[loc].status;
            var before := Recorded(last, order, entries, k);
            if Some(status) != Get(before, loc) then
              Recorded(last, order, entries, k + 1) == before[loc := status]
              && ChangeAlerts(order, entries, last, k + 1)
                 == ChangeAlerts(order, entries, last, k) + [Alert(loc, entries[loc].componentName, status)]
            else
              Recorded(last, order, entries, k + 1) == before
              && ChangeAlerts(order, entries, last, k + 1) == ChangeAlerts(order, entries, last, k)
  {
    NotYetRecorded(last, order, entries, k);
  }

  /** Once every key of a well-formed dictionary is visited, `last_statuses` is the old map
      overridden by the matched statuses. */
  lemma RecordedIsStatuses(last: map<string, string>, order: seq<string>, entries: map<string, Match>)
    requires Valid(Dict(order, entries))
    ensures Listed(order, entries)
    ensures Recorded(last, order, entries, |order|) == last + StatusesOf(entries)
  {
    var r := Recorded(last, order, entries, |order|);
    var t := last + StatusesOf(entries);
    assert order[..|order|] == order;
    forall x ensures Get(r, x) == Get(t, x) {
      RecordedAt(last, order, entries, |order|, x);
    }
    LookupsAgree(r, t);
  }

  /** A target is reported as not found exactly when it is a cleaned target without a match. */
  lemma {:induction false} NotFoundExact(targets: seq<string>, entries: map<string, Match>, x: string)
    ensures x in NotFound(targets, entries) <==> x in targets && x !in entries
  {
    if targets != [] {
      var init := targets[..|targets| - 1];
      NotFoundExact(init, entries, x);
      assert targets == init + [targets[|targets| - 1]];
    }
  }

  /** How many of `alerts` concern `loc`. */
  function AlertsAbout(alerts: seq<Alert>, loc: string): nat
    decreases |alerts|
  {
    if alerts == [] then 0
    else AlertsAbout(alerts[..|alerts| - 1], loc) + (if alerts[|alerts| - 1].location == loc then 1 else 0)
  }

  /** Each alert is the alert for a visited location whose status changed. */
  lemma {:induction false} ChangeAlertsSound(order: seq<string>, entries: map<string, Match>,
                                             last: map<string, string>, n: nat, a: Alert)
    requires n <= |order| && Listed(order, entries)
    requires a in ChangeAlerts(order, entries, last, n)
    ensures a.location in order[..n] && a == AlertFor(entries, a.location)
    ensures Changed(last, a.location, entries[a.location].status)
  {
    if a in ChangeAlerts(order, entries, last, n - 1) {
      ChangeAlertsSound(order, entries, last, n - 1, a);
      assert order[..n - 1] <= order[..n];
    } else {
      assert order[..n][n - 1] == order[n - 1];
    }
  }

  /** Over keys listed once, a location gets exactly one alert if its status changed and
      none otherwise. */
  lemma {:induction false} ChangeAlertsCount(order: seq<string>, entries: map<string, Match>,
                                             last: map<string, string>, n: nat, loc: string)
    requires n <= |order| && Listed(order, entries)
    requires Distinct(order)
    ensures AlertsAbout(ChangeAlerts(order, entries, last, n), loc) ==
            if loc in order[..n] && Changed(last, loc, entries[loc].status) then 1 else 0
  {
    if n > 0 {
      var l := order[n - 1];
      ChangeAlertsCount(order, entries, last, n - 1, loc);
      var rest := ChangeAlerts(order, entries, last, n - 1);
      var init := order[..n - 1];
      assert order[..n] == init + [l];
      forall i | 0 <= i < n - 1 ensures init[i] != l {
        assert init[i] == order[i];
      }
      assert l !in init;
      if Changed(last, l, entries[l].status) {
        var all := rest + [AlertFor(entries, l)];
        assert all[..|all| - 1] == rest;
      } else {
        assert rest + [] == rest;
      }
    }
  }

  /** After any cycle, every matched target holds its matched status and every other entry
      is as it was; an empty fetch changes nothing at all. */
  lemma CycleStatuses(last: map<string, string>, components: seq<Component>, targets: seq<string>, loc: string)
    ensures components == [] ==> Cycle(last, components, targets) == CycleResult([], [], last)
    ensures var m := MatchAll(components, CleanAll(targets));
            var r := Cycle(last, components, targets);
            (loc in m.entries ==> loc in r.statuses && r.statuses[loc] == m.entries[loc].status)
            && (loc !in m.entries ==> Get(r.statuses, loc) == Get(last, loc))
  {
  }

  /** In a cycle with data, exactly the matched targets whose status changed are alerted,
      once each; in a cycle without data nothing is. */
  lemma CycleAlertsExact(last: map<string, string>, components: seq<Component>, targets: seq<string>, loc: string)
    ensures var m := MatchAll(components, CleanAll(targets));
            AlertsAbout(Cycle(last, components, targets).alerts, loc) ==
            if components != [] && loc in m.entries && Changed(last, loc, m.entries[loc].status) then 1 else 0
  {
    if components != [] {
      var m := MatchAll(components, CleanAll(targets));
      MatchAllKeysAreTargets(components, CleanAll(targets));
      ChangeAlertsCount(m.keys, m.entries, last, |m.keys|, loc);
      assert m.keys[..|m.keys|] == m.keys;
    }
  }

  /** Exactly the cleaned targets that have no match are reported as not found. */
  lemma CycleNotFoundExact(last: map<string, string>, components: seq<Component>, targets: seq<string>, x: string)
    requires components != []
    ensures x in Cycle(last, components, targets).notFound <==>
            x in CleanAll(targets) && x !in MatchAll(components, CleanAll(targets)).entries
  {
    NotFoundExact(CleanAll(targets), MatchAll(components, CleanAll(targets)).entries, x);
  }

  /** With every status already recorded, the loop raises nothing. */
  lemma {:induction false} NoChangeNoAlerts(order: seq<string>, entries: map<string, Match>,
                                            last: map<string, string>, n: nat)
    requires n <= |order| && Listed(order, entries)
    requires forall i :: 0 <= i < |order| ==> order[i] in last && last[order[i]] == entries[order[i]].status
    ensures ChangeAlerts(order, entries, last, n) == []
  {
    if n > 0 {
      NoChangeNoAlerts(order, entries, last, n - 1);
    }
  }

  /** Running the same cycle twice: the second run raises no alerts and changes no state. */
  lemma CycleIdempotent(last: map<string, string>, components: seq<Component>, targets: seq<string>)
    ensures var r1 := Cycle(last, components, targets);
            var r2 := Cycle(r1.statuses, components, targets);
            r2.alerts == [] && r2.statuses == r1.statuses && r2.notFound == r1.notFound
  {
    if components != [] {
      var m := MatchAll(components, CleanAll(targets));
      MatchAllKeysAreTargets(components, CleanAll(targets));
      var s1 := last + StatusesOf(m.entries);
      NoChangeNoAlerts(m.keys, m.entries, s1, |m.keys|);
      forall x ensures Get(s1 + StatusesOf(m.entries), x) == Get(s1, x) {
      }
      LookupsAgree(s1 + StatusesOf(m.entries), s1);
    }
  }

  /** A single component whose name contains the single target, seen for the first time:
      one alert, nothing missing, and its status is remembered. */
  lemma FirstSighting(loc: string, name: string, status: string)
    requires WellFormedTarget(loc) && AsciiText.Contains(AsciiText.Lower(name), loc)
    ensures Cycle(map[], [Component(Some(name), Some(status))], [loc])
            == CycleResult([Alert(loc, name, status)], [], map[loc := status])
  {
    var cs := [Component(Some(name), Some(status))];
    AsciiText.TrimOfTrimmed(loc);
    AsciiText.LowerOfLowerCase(loc);
    assert CleanAll([loc]) == [loc];
    assert cs[..0] == [];
    assert NameOf(cs[0]) == name && StatusOf(cs[0]) == status;
    assert Pick(cs[0], [loc]) == Some(loc);
    var m := MatchAll(cs, [loc]);
    assert m == Assign(MatchAll([], [loc]), cs[0], [loc]);
    assert m == Put(Empty(), loc, Match(name, status));
    assert ChangeAlerts(m.keys, m.entries, map[], 1) == [Alert(loc, name, status)];
    assert NotFound([loc], m.entries) == [];
  }

  /** A first sighting of "Jakarta Edge" as operational is a change: one alert, and the
      status is remembered. */
  lemma FirstSightingAlerts()
    ensures Cycle(map[], [Component(Some("Jakarta Edge"), Some("operational"))], ["jakarta"])
            == CycleResult([Alert("jakarta", "Jakarta Edge", "operational")], [], map["jakarta" := "operational"])
  {
    var n := AsciiText.Lower("Jakarta Edge");
    assert n[..7] == "jakarta";
    assert AsciiText.Contains(n, "jakarta");
    assert WellFormedTarget("jakarta");
    FirstSighting("jakarta", "Jakarta Edge", "operational");
  }

  /** The same feed with "operational" already remembered raises nothing and changes nothing. */
  lemma KnownStatusIsQuiet()
    ensures Cycle(map["jakarta" := "operational"], [Component(Some("Jakarta Edge"), Some("operational"))], ["jakarta"])
            == CycleResult([], [], map["jakarta" := "operational"])
  {
    FirstSightingAlerts();
    CycleIdempotent(map[], [Component(Some("Jakarta Edge"), Some("operational"))], ["jakarta"]);
  }
}
