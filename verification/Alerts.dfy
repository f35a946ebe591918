/** Fleet alerts: rules, anomaly reports, and the guarantee that an open alert is not raised again. */
module Alerts {
  import opened Prelude
  import opened Assoc

  datatype Rule = Rule(ruleId: string, name: string, metric: string, threshold: real, severity: string, enabled: bool)

  datatype Report = Report(metric: string, value: real)

  datatype Event = Event(
    alertId: string, ruleId: string, deviceId: string, metric: string, value: real, threshold: real,
    severity: string, firedAt: string, resolved: bool, resolvedAt: string)

  type Rules = seq<Entry<Rule>>

  predicate OpenFor(e: Event, device: string, ruleId: string) {
    e.deviceId == device && e.ruleId == ruleId && !e.resolved
  }

  predicate HasOpen(events: seq<Event>, device: string, ruleId: string) {
    exists e :: e in events && OpenFor(e, device, ruleId)
  }

  /** At most one open alert per device and rule. */
  ghost predicate OneOpen(events: seq<Event>) {
    forall i, j :: 0 <= i < j < |events| && !events[i].resolved && !events[j].resolved ==>
      events[i].deviceId != events[j].deviceId || events[i].ruleId != events[j].ruleId
  }

  predicate Triggers(rule: Rule, report: Report) {
    rule.enabled && rule.metric == report.metric && report.value >= rule.threshold
  }

  /** `at` gives the clock readings of the n-th alert fired in a call: for its id and for its time. */
  function NewEvent(device: string, rule: Rule, report: Report, stamp: string, firedAt: string): Event {
    Event(device + ":" + rule.ruleId + ":" + stamp, rule.ruleId, device, rule.metric, report.value, rule.threshold,
          rule.severity, firedAt, false, "")
  }

  // ----- what a check does -----

  /** The alerts one report adds, going through the rules in order. */
  function FireRules(rules: Rules, events: seq<Event>, device: string, report: Report, at: nat -> (string, string), n: nat): seq<Event> {
    if rules == [] then []
    else
      var rule := rules[0].value;
      if Triggers(rule, report) && !HasOpen(events, device, rule.ruleId) then
        var e := NewEvent(device, rule, report, at(n).0, at(n).1);
        [e] + FireRules(rules[1..], events + [e], device, report, at, n + 1)
      else FireRules(rules[1..], events, device, report, at, n)
  }

  function FireReports(rules: Rules, events: seq<Event>, device: string, reports: seq<Report>, at: nat -> (string, string), n: nat): seq<Event>
    decreases |reports|
  {
    if reports == [] then []
    else
      var first := FireRules(rules, events, device, reports[0], at, n);
      first + FireReports(rules, events + first, device, reports[1..], at, n + |first|)
  }

  lemma OpenAppend(events: seq<Event>, e: Event, device: string, ruleId: string)
    ensures HasOpen(events + [e], device, ruleId) <==> HasOpen(events, device, ruleId) || OpenFor(e, device, ruleId)
  {
    assert forall x :: x in events + [e] <==> x in events || x == e;
  }

  lemma AppendKeepsOneOpen(events: seq<Event>, e: Event)
    requires OneOpen(events) && !HasOpen(events, e.deviceId, e.ruleId)
    ensures OneOpen(events + [e])
  {
    forall i | 0 <= i < |events| && !events[i].resolved && !e.resolved
      ensures events[i].deviceId != e.deviceId || events[i].ruleId != e.ruleId
    {
      assert events[i] in events;
    }
  }

  /** The alert says that the report reached the threshold of the enabled rule; its id begins with device and rule. */
  predicate Says(e: Event, rule: Rule, report: Report) {
    && rule.enabled && rule.metric == report.metric && report.value >= rule.threshold
    && e.ruleId == rule.ruleId && e.metric == report.metric && e.value == report.value
    && e.threshold == rule.threshold && e.severity == rule.severity && e.resolvedAt == ""
    && e.deviceId + ":" + rule.ruleId + ":" <= e.alertId
  }

  /** Some rule and report are behind the alert. */
  ghost predicate CausedBy(rules: Rules, report: Report, e: Event) {
    exists k :: 0 <= k < |rules| && Says(e, rules[k].value, report)
  }

  lemma CausedByMore(rules: Rules, report: Report, e: Event)
    requires rules != []
    ensures CausedBy(rules[1..], report, e) ==> CausedBy(rules, report, e)
    ensures Says(e, rules[0].value, report) ==> CausedBy(rules, report, e)
  {
    hide Says;
    if CausedBy(rules[1..], report, e) {
      var k :| 0 <= k < |rules[1..]| && Says(e, rules[1..][k].value, report);
      assert rules[k + 1] == rules[1..][k];
    }
  }

  lemma TriggeredSays(device: string, rule: Rule, report: Report, stamp: string, firedAt: string)
    requires Triggers(rule, report)
    ensures Says(NewEvent(device, rule, report, stamp, firedAt), rule, report)
  {
    assert device + ":" + rule.ruleId + ":" + stamp == (device + ":" + rule.ruleId + ":") + stamp;
  }

  predicate Concerns(rule: Rule, metric: string) {
    rule.enabled && rule.metric == metric
  }

  /** Every enabled rule on the report's metric whose threshold the report reaches has an open alert. */
  ghost predicate AllAlerted(rules: Rules, report: Report, events: seq<Event>, device: string) {
    forall k :: 0 <= k < |rules| && Concerns(rules[k].value, report.metric) && rules[k].value.threshold <= report.value ==>
      HasOpen(events, device, rules[k].value.ruleId)
  }

  /** One report: nothing is raised twice, every triggered rule has its open alert afterwards, and every
      alert raised belongs to a triggered rule that had none. */
  lemma {:induction false} FireRulesProperties(rules: Rules, events: seq<Event>, device: string, report: Report, at: nat -> (string, string), n: nat)
    requires OneOpen(events)
    ensures var fired := FireRules(rules, events, device, report, at, n);
            && OneOpen(events + fired)
            && AllAlerted(rules, report, events + fired, device)
            && (forall e :: e in fired ==> !e.resolved && e.deviceId == device && !HasOpen(events, device, e.ruleId))
            && (forall e :: e in fired ==> CausedBy(rules, report, e))
    decreases |rules|
  {
    if rules == [] {
      assert events + [] == events;
    } else {
      hide HasOpen, OneOpen, Triggers, CausedBy;
      var rule, tail := rules[0].value, rules[1..];
      forall e ensures CausedBy(tail, report, e) ==> CausedBy(rules, report, e) { CausedByMore(rules, report, e); }
      assert forall k :: 0 <= k < |tail| ==> tail[k] == rules[k + 1];
      var fired := FireRules(rules, events, device, report, at, n);
      if Triggers(rule, report) && !HasOpen(events, device, rule.ruleId) {
        var e := NewEvent(device, rule, report, at(n).0, at(n).1);
        AppendKeepsOneOpen(events, e);
        TriggeredSays(device, rule, report, at(n).0, at(n).1);
        CausedByMore(rules, report, e);
        FireRulesProperties(tail, events + [e], device, report, at, n + 1);
        var rest := FireRules(tail, events + [e], device, report, at, n + 1);
        assert events + [e] + rest == events + fired;
        OpenSurvives(events + [e], rest, device, rule.ruleId);
        OpenAppend(events, e, device, rule.ruleId);
        forall x | x in rest
          ensures !HasOpen(events, device, x.ruleId)
        {
          OpenAppend(events, e, device, x.ruleId);
        }
      } else {
        FireRulesProperties(tail, events, device, report, at, n);
        OpenSurvives(events, fired, device, rule.ruleId);
      }
    }
  }

  lemma OpenSurvives(events: seq<Event>, more: seq<Event>, device: string, ruleId: string)
    ensures HasOpen(events, device, ruleId) ==> HasOpen(events + more, device, ruleId)
  {
    assert forall x :: x in events ==> x in events + more;
  }

  lemma AlertedSurvives(rules: Rules, report: Report, events: seq<Event>, more: seq<Event>, device: string)
    requires AllAlerted(rules, report, events, device)
    ensures AllAlerted(rules, report, events + more, device)
  {
    hide HasOpen;
    forall ruleId ensures HasOpen(events, device, ruleId) ==> HasOpen(events + more, device, ruleId) {
      OpenSurvives(events, more, device, ruleId);
    }
  }

  /** A whole check: one open alert per device and rule is kept, and every enabled rule that any report
      triggers has an open alert for the device afterwards. */
  lemma {:induction false} CheckProperties(rules: Rules, events: seq<Event>, device: string, reports: seq<Report>, at: nat -> (string, string), n: nat)
    requires OneOpen(events)
    ensures var fired := FireReports(rules, events, device, reports, at, n);
            && OneOpen(events + fired)
            && (forall r :: 0 <= r < |reports| ==> AllAlerted(rules, reports[r], events + fired, device))
            && (forall e :: e in fired ==> !e.resolved && e.deviceId == device && !HasOpen(events, device, e.ruleId))
            && (forall e :: e in fired ==> exists r :: 0 <= r < |reports| && CausedBy(rules, reports[r], e))
    decreases |reports|
  {
    hide HasOpen, OneOpen, Triggers, AllAlerted, CausedBy;
    if reports == [] {
      assert events + [] == events;
    } else {
      var first := FireRules(rules, events, device, reports[0], at, n);
      FireRulesProperties(rules, events, device, reports[0], at, n);
      var mid := events + first;
      CheckProperties(rules, mid, device, reports[1..], at, n + |first|);
      var rest := FireReports(rules, mid, device, reports[1..], at, n + |first|);
      var fired := FireReports(rules, events, device, reports, at, n);
      assert fired == first + rest && events + fired == mid + rest;
      forall r | 0 <= r < |reports|
        ensures AllAlerted(rules, reports[r], events + fired, device)
      {
        if r == 0 {
          AlertedSurvives(rules, reports[0], mid, rest, device);
        } else {
          assert reports[r] == reports[1..][r - 1];
        }
      }
      forall e | e in fired
        ensures exists r :: 0 <= r < |reports| && CausedBy(rules, reports[r], e)
      {
        if e in first {
          assert CausedBy(rules, reports[0], e);
        } else {
          var r :| 0 <= r < |reports[1..]| && CausedBy(rules, reports[1..][r], e);
          assert reports[r + 1] == reports[1..][r];
        }
      }
      forall e | e in rest
        ensures !HasOpen(events, device, e.ruleId)
      {
        OpenSurvives(events, first, device, e.ruleId);
      }
    }
  }

  // ----- resolution -----

  function FirstUnresolved(events: seq<Event>, alertId: string): (i: nat)
    ensures i <= |events|
    ensures forall j :: 0 <= j < i ==> events[j].alertId != alertId || events[j].resolved
    ensures i < |events| ==> events[i].alertId == alertId && !events[i].resolved
  {
    if events == [] || (events[0].alertId == alertId && !events[0].resolved) then 0
    else 1 + FirstUnresolved(events[1..], alertId)
  }

  function Resolve(events: seq<Event>, alertId: string, now: string): seq<Event> {
    var i := FirstUnresolved(events, alertId);
    if i == |events| then events else events[i := events[i].(resolved := true, resolvedAt := now)]
  }

  // ----- the service -----

  /** The same events, some of them resolved since, and possibly more. */
  ghost predicate Grows(before: seq<Event>, after: seq<Event>) {
    && |before| <= |after|
    && forall i :: 0 <= i < |before| ==>
         && after[i] == before[i].(resolved := after[i].resolved, resolvedAt := after[i].resolvedAt)
         && (before[i].resolved ==> after[i] == before[i])
  }

  lemma ReportStep(rules: Rules, events: seq<Event>, device: string, reports: seq<Report>, r: nat, at: nat -> (string, string), n: nat)
    requires r < |reports|
    ensures var more := FireRules(rules, events, device, reports[r], at, n);
            FireReports(rules, events, device, reports[r..], at, n)
            == more + FireReports(rules, events + more, device, reports[r + 1..], at, n + |more|)
  {
    hide FireRules;
    assert reports[r..][0] == reports[r] && reports[r..][1..] == reports[r + 1..];
  }

  lemma NoReports(rules: Rules, events: seq<Event>, device: string, reports: seq<Report>, at: nat -> (string, string), n: nat)
    ensures FireReports(rules, events, device, reports[|reports|..], at, n) == []
  {
  }

  lemma GrowsByAppending(events: seq<Event>, more: seq<Event>)
    ensures Grows(events, events + more)
  {
  }

  /** The fields an update names. */
  datatype RuleUpdates = RuleUpdates(ruleId: Option<string>, name: Option<string>, metric: Option<string>,
                                     threshold: Option<real>, severity: Option<string>, enabled: Option<bool>)

  predicate Field<T(==)>(update: Option<T>, before: T, after: T) {
    after == update.GetOr(before)
  }

  predicate Follows(u: RuleUpdates, before: Rule, after: Rule) {
    && Field(u.ruleId, before.ruleId, after.ruleId) && Field(u.name, before.name, after.name)
    && Field(u.metric, before.metric, after.metric) && Field(u.threshold, before.threshold, after.threshold)
    && Field(u.severity, before.severity, after.severity) && Field(u.enabled, before.enabled, after.enabled)
  }

  lemma StoredRule(rules: Rules, ruleId: string)
    ensures Has(rules, ruleId) <==> Get(rules, ruleId).Some?
  {
  }

  class AlertService {
    var rules: Rules
    var events: seq<Event>

    ghost predicate Valid()
      reads this
    {
      OneOpen(events) && DistinctKeys(rules)
    }

    constructor ()
      ensures Valid() && rules == [] && events == []
    {
      rules, events := [], [];
    }

    /** The rule is found under its id, every other rule as before, and rules keep the order in which their
        ids first came; by Assoc.SameDictionary nothing is left open. */
    method AddRule(rule: Rule)
      requires Valid()
      modifies this`rules
      ensures Valid() && Get(rules, rule.ruleId) == Some(rule)
      ensures forall k :: k != rule.ruleId ==> Get(rules, k) == Get(old(rules), k)
      ensures Keys(rules) == if Has(old(rules), rule.ruleId) then Keys(old(rules)) else Keys(old(rules)) + [rule.ruleId]
    {
      hide Get, Put, Has, Keys;
      PutProperties(rules, rule.ruleId, rule);
      PutKeys(rules, rule.ruleId, rule);
      rules := Put(rules, rule.ruleId, rule);
    }

    method DeleteRule(ruleId: string) returns (deleted: bool)
      requires Valid()
      modifies this`rules
      ensures Valid() && (deleted <==> Has(old(rules), ruleId)) && !Has(rules, ruleId)
      ensures forall k :: k != ruleId ==> Get(rules, k) == Get(old(rules), k)
      ensures deleted ==>
                var i := IndexOfKey(old(rules), ruleId);
                Keys(rules) == Keys(old(rules))[..i] + Keys(old(rules))[i + 1..]
    {
      hide Get, IndexOfKey, Keys, Remove;
      if !Has(rules, ruleId) {
        return false;
      }
      RemoveProperties(rules, ruleId);
      StoredRule(Remove(rules, ruleId), ruleId);
      rules := Remove(rules, ruleId);
      deleted := true;
    }

    /** The named fields of a stored rule change, the others keep their values; the rule stays under the id
        it is stored under, even when its `ruleId` field changes. */
    method UpdateRule(ruleId: string, updates: RuleUpdates) returns (updated: Option<Rule>)
      requires Valid()
      modifies this`rules
      ensures Valid() && (updated.Some? <==> Has(old(rules), ruleId))
      ensures updated.None? ==> rules == old(rules)
      ensures updated.Some? ==>
                && Get(rules, ruleId) == updated && Follows(updates, Get(old(rules), ruleId).value, updated.value)
                && (forall k :: k != ruleId ==> Get(rules, k) == Get(old(rules), k))
                && Keys(rules) == Keys(old(rules))
    {
      hide Get, Put, Keys, Follows;
      if !Has(rules, ruleId) {
        return None;
      }
      StoredRule(rules, ruleId);
      var rule := Merged(updates, Get(rules, ruleId).value);
      PutProperties(rules, ruleId, rule);
      PutKeys(rules, ruleId, rule);
      rules := Put(rules, ruleId, rule);
      updated := Some(rule);
    }

    method Merged(u: RuleUpdates, before: Rule) returns (rule: Rule)
      ensures Follows(u, before, rule)
    {
      rule := before;
      if u.ruleId.Some? { rule := rule.(ruleId := u.ruleId.value); }
      if u.name.Some? { rule := rule.(name := u.name.value); }
      if u.metric.Some? { rule := rule.(metric := u.metric.value); }
      if u.threshold.Some? { rule := rule.(threshold := u.threshold.value); }
      if u.severity.Some? { rule := rule.(severity := u.severity.value); }
      if u.enabled.Some? { rule := rule.(enabled := u.enabled.value); }
    }

    method FindOpenAlert(device: string, ruleId: string) returns (found: bool)
      ensures found <==> HasOpen(events, device, ruleId)
    {
      var all := events;
      for i := 0 to |all|
        invariant forall j :: 0 <= j < i ==> !OpenFor(all[j], device, ruleId)
      {
        if OpenFor(all[i], device, ruleId) {
          assert all[i] in all;
          return true;
        }
      }
      found := false;
    }

    /** The inner loop: one report against every rule. */
    method CheckReport(device: string, report: Report, at: nat -> (string, string), n: nat) returns (fired: seq<Event>)
      modifies this`events
      ensures fired == FireRules(rules, old(events), device, report, at, n)
      ensures events == old(events) + fired
    {
      hide HasOpen, Triggers, NewEvent;
      fired := [];
      assert old(events) + [] == old(events);
      for k := 0 to |rules|
        invariant events == old(events) + fired
        invariant FireRules(rules, old(events), device, report, at, n)
                  == fired + FireRules(rules[k..], events, device, report, at, n + |fired|)
      {
        assert rules[k..][0] == rules[k] && rules[k..][1..] == rules[k + 1..];
        var rule := rules[k].value;
        if !Triggers(rule, report) {
          continue;
        }
        var existing := FindOpenAlert(device, rule.ruleId);
        if existing {
          continue;
        }
        var event := NewEvent(device, rule, report, at(n + |fired|).0, at(n + |fired|).1);
        ghost var rest := FireRules(rules[k + 1..], events + [event], device, report, at, n + |fired| + 1);
        assert fired + ([event] + rest) == fired + [event] + rest;
        events := events + [event];
        fired := fired + [event];
      }
      assert rules[|rules|..] == [];
      assert fired + [] == fired;
    }

    method CheckAnomalies(device: string, reports: seq<Report>, at: nat -> (string, string)) returns (fired: seq<Event>)
      requires Valid()
      modifies this`events
      ensures Valid()
      ensures fired == FireReports(rules, old(events), device, reports, at, 0)
      ensures events == old(events) + fired && Grows(old(events), events)
      ensures Fleet(rules, events) == Step(Fleet(rules, old(events)), Check(device, reports, at))
      ensures forall r :: 0 <= r < |reports| ==> AllAlerted(rules, reports[r], events, device)
    {
      hide HasOpen, OneOpen, Triggers, FireRules, FireReports, DistinctKeys, Grows, AllAlerted, CausedBy;
      fired := [];
      assert old(events) + [] == old(events) && reports[0..] == reports;
      for r := 0 to |reports|
        invariant events == old(events) + fired
        invariant FireReports(rules, old(events), device, reports, at, 0)
                  == fired + FireReports(rules, events, device, reports[r..], at, |fired|)
      {
        ReportStep(rules, events, device, reports, r, at, |fired|);
        var more := CheckReport(device, reports[r], at, |fired|);
        ghost var rest := FireReports(rules, events, device, reports[r + 1..], at, |fired| + |more|);
        assert fired + (more + rest) == fired + more + rest;
        fired := fired + more;
      }
      NoReports(rules, events, device, reports, at, |fired|);
      assert fired + [] == fired;
      CheckProperties(rules, old(events), device, reports, at, 0);
      GrowsByAppending(old(events), fired);
    }

    method ResolveAlert(alertId: string, now: string) returns (resolved: bool)
      requires Valid()
      modifies this`events
      ensures Valid() && Grows(old(events), events)
      ensures Fleet(rules, events) == Step(Fleet(rules, old(events)), ResolveOne(alertId, now))
      ensures resolved <==> exists e :: e in old(events) && e.alertId == alertId && !e.resolved
    {
      var all := events;
      for i := 0 to |all|
        invariant events == all == old(events)
        invariant forall j :: 0 <= j < i ==> all[j].alertId != alertId || all[j].resolved
      {
        if all[i].alertId == alertId && !all[i].resolved {
          assert FirstUnresolved(all, alertId) == i;
          assert all[i] in all;
          events := all[i := all[i].(resolved := true, resolvedAt := now)];
          return true;
        }
      }
      assert FirstUnresolved(all, alertId) == |all|;
      resolved := false;
    }
  }

  // ----- whole runs -----

  datatype Fleet = Fleet(rules: Rules, events: seq<Event>)

  /** A check, a resolution, or an edit of the rules, whatever they become by it. */
  datatype Op =
    | Check(device: string, reports: seq<Report>, at: nat -> (string, string))
    | ResolveOne(alertId: string, now: string)
    | EditRules(rules: Rules)

  function Step(f: Fleet, op: Op): Fleet {
    match op
    case Check(device, reports, at) => f.(events := f.events + FireReports(f.rules, f.events, device, reports, at, 0))
    case ResolveOne(alertId, now) => f.(events := Resolve(f.events, alertId, now))
    case EditRules(rules) => f.(rules := rules)
  }

  function Run(start: Fleet, ops: seq<Op>): Fleet {
    if ops == [] then start else Step(Run(start, ops[..|ops| - 1]), Last(ops))
  }

  lemma ResolveKeeps(events: seq<Event>, alertId: string, now: string)
    ensures OneOpen(events) ==> OneOpen(Resolve(events, alertId, now))
    ensures Grows(events, Resolve(events, alertId, now))
  {
  }

  lemma GrowsThrough(a: seq<Event>, b: seq<Event>, c: seq<Event>)
    requires Grows(a, b) && Grows(b, c)
    ensures Grows(a, c)
  {
  }

  /** Through every run of checks, resolutions and rule edits there is at most one open alert per device and
      rule, and no event is lost, changed other than by its resolution, or opened again. */
  lemma {:induction false} OneOpenOverRuns(start: Fleet, ops: seq<Op>)
    requires OneOpen(start.events)
    ensures OneOpen(Run(start, ops).events) && Grows(start.events, Run(start, ops).events)
  {
    hide OneOpen, Grows, Resolve, FireReports;
    if ops == [] {
      GrowsByAppending(start.events, []);
      assert start.events + [] == start.events;
    } else {
      var before := Run(start, ops[..|ops| - 1]);
      OneOpenOverRuns(start, ops[..|ops| - 1]);
      match Last(ops) {
        case Check(device, reports, at) =>
          CheckProperties(before.rules, before.events, device, reports, at, 0);
          GrowsByAppending(before.events, FireReports(before.rules, before.events, device, reports, at, 0));
          GrowsThrough(start.events, before.events, Run(start, ops).events);
        case ResolveOne(alertId, now) =>
          ResolveKeeps(before.events, alertId, now);
          GrowsThrough(start.events, before.events, Run(start, ops).events);
        case EditRules(_) =>
      }
    }
  }
}
