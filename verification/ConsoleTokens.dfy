/** Single-use console tokens with a time limit, looked up one call at a time. */
module ConsoleTokens {
  import opened Prelude
  import opened Text
  import opened Assoc

  datatype Grant = Grant(host: string, port: int, createdAt: real, used: bool)

  type Store = seq<Entry<Grant>>

  datatype Target = Target(host: string, port: int)

  /** `at(t)` is the clock reading taken when the entry of `t` is checked. */
  type Readings = string -> real

  predicate Expired(g: Grant, reading: real, ttl: real) {
    reading - g.createdAt > ttl
  }

  predicate Alive(e: Entry<Grant>, at: Readings, ttl: real) {
    !e.value.used && !Expired(e.value, at(e.key), ttl)
  }

  function AliveRule(at: Readings, ttl: real): Entry<Grant> -> bool {
    e => Alive(e, at, ttl)
  }

  /** The entry a lookup finds after pruning, when it names a usable target. */
  function Accepted(store: Store, token: string, at: Readings, ttl: real): Option<Target> {
    var g := Get(Filter(store, AliveRule(at, ttl)), Strip(token));
    if g.None? || Strip(g.value.host) == [] || g.value.port <= 0 then None
    else Some(Target(Strip(g.value.host), g.value.port))
  }

  /** The used mark goes under the token as it was presented. */
  function AfterLookup(store: Store, token: string, at: Readings, ttl: real): Store {
    var pruned := Filter(store, AliveRule(at, ttl));
    if Accepted(store, token, at, ttl).None? then pruned
    else Put(pruned, token, Get(pruned, Strip(token)).value.(used := true))
  }

  class BeagleTokenFile {
    const ttl: real
    var store: Store

    constructor (ttl: real)
      ensures this.ttl == ttl && store == []
    {
      this.ttl := ttl;
      store := [];
    }

    method Lookup(token: string, at: Readings) returns (r: Option<Target>)
      modifies this
      ensures r == Accepted(old(store), token, at, ttl)
      ensures store == AfterLookup(old(store), token, at, ttl)
    {
      hide Strip, Put, Get;
      var pruned := Filter(store, AliveRule(at, ttl));
      var entry := Get(pruned, Strip(token));
      if entry.None? {
        store := pruned;
        return None;
      }
      var host := Strip(entry.value.host);
      var port := entry.value.port;
      if host == [] || port <= 0 {
        store := pruned;
        return None;
      }
      store := Put(pruned, token, entry.value.(used := true));
      r := Some(Target(host, port));
    }
  }

  // ----- what a filter keeps of a dictionary -----

  lemma {:induction false} FilterKeys(d: Store, keep: Entry<Grant> -> bool)
    requires DistinctKeys(d)
    ensures DistinctKeys(Filter(d, keep))
    ensures forall k :: Get(Filter(d, keep), k) ==
              if Get(d, k).Some? && keep(Entry(k, Get(d, k).value)) then Get(d, k) else None
  {
    if d != [] {
      var rest := Filter(d[1..], keep);
      FilterKeys(d[1..], keep);
      var f := Filter(d, keep);
      forall j | 0 <= j < |rest|
        ensures rest[j].key != d[0].key
      {
        var i := FilterOrigin(d[1..], keep, j);
        assert d[i + 1] == rest[j];
      }
      forall k
        ensures Get(f, k) == if Get(d, k).Some? && keep(Entry(k, Get(d, k).value)) then Get(d, k) else None
      {
        if k == d[0].key {
          IndexIs(rest, k, |rest|);
          IndexIs(d[1..], k, |d| - 1);
          if keep(d[0]) { assert f[0] == d[0]; }
        } else {
          TailLookup(d, k);
          if keep(d[0]) {
            assert f[1..] == rest && f[0] == d[0];
            TailLookup(f, k);
          }
        }
      }
    }
  }

  // ----- one call -----

  /** After any call nothing that had expired when the call began is left, and at most one entry is used. */
  lemma LookupCleans(store: Store, token: string, at: Readings, ttl: real, began: real)
    requires DistinctKeys(store) && forall t :: began <= at(t)
    ensures var after := AfterLookup(store, token, at, ttl);
            && DistinctKeys(after)
            && (forall k :: Get(after, k).Some? ==> !Expired(Get(after, k).value, began, ttl))
            && (forall k :: Get(after, k).Some? && Get(after, k).value.used ==>
                  k == token && Accepted(store, token, at, ttl).Some?)
  {
    hide Strip;
    var pruned := Filter(store, AliveRule(at, ttl));
    FilterKeys(store, AliveRule(at, ttl));
    if Accepted(store, token, at, ttl).Some? {
      PutProperties(pruned, token, Get(pruned, Strip(token)).value.(used := true));
    }
  }

  /** A token is accepted only while its age is at most the limit. */
  lemma AcceptedWithinLimit(store: Store, token: string, at: Readings, ttl: real)
    requires DistinctKeys(store) && Accepted(store, token, at, ttl).Some?
    ensures var g := Get(store, Strip(token));
            g.Some? && !g.value.used && at(Strip(token)) - g.value.createdAt <= ttl
  {
    FilterKeys(store, AliveRule(at, ttl));
  }

  /** After a token was accepted, any presentation of it is accepted again, while its entry is still young
      enough, exactly when it was not presented in its own stripped form the first time. */
  lemma SecondUseExactly(store: Store, token: string, other: string, at: Readings, again: Readings, ttl: real)
    requires DistinctKeys(store) && Accepted(store, token, at, ttl).Some? && Strip(other) == Strip(token)
    requires again(Strip(token)) - Get(store, Strip(token)).GetOr(Grant("", 0, 0.0, false)).createdAt <= ttl
    ensures Accepted(AfterLookup(store, token, at, ttl), other, again, ttl).Some? <==> token != Strip(token)
  {
    hide Strip;
    var pruned := Filter(store, AliveRule(at, ttl));
    FilterKeys(store, AliveRule(at, ttl));
    PutProperties(pruned, token, Get(pruned, Strip(token)).value.(used := true));
    var after := AfterLookup(store, token, at, ttl);
    FilterKeys(after, AliveRule(again, ttl));
  }

  // ----- whole runs -----

  /** The control plane issues a token at one clock reading, under its own time limit, or the plugin looks a
      token up. */
  datatype Op = Issue(token: string, host: string, port: int, now: real, limit: real) | Lookup(token: string, at: Readings)

  /** Issuing drops used and expired entries first. */
  function AfterIssue(store: Store, token: string, host: string, port: int, now: real, ttl: real): Store {
    Put(Filter(store, AliveRule(_ => now, ttl)), token, Grant(if host == [] then "127.0.0.1" else host, port, now, false))
  }

  function Step(store: Store, op: Op, ttl: real): Store {
    match op
    case Issue(token, host, port, now, limit) => AfterIssue(store, token, host, port, now, limit)
    case Lookup(token, at) => AfterLookup(store, token, at, ttl)
  }

  /** After issuing, the new token is there, unused and fresh, and so is exactly what was alive before. */
  lemma IssueProperties(store: Store, token: string, host: string, port: int, now: real, ttl: real)
    requires DistinctKeys(store)
    ensures var after := AfterIssue(store, token, host, port, now, ttl);
            && DistinctKeys(after)
            && Get(after, token) == Some(Grant(if host == [] then "127.0.0.1" else host, port, now, false))
            && (forall k :: k != token ==>
                  Get(after, k) ==
                    if Get(store, k).Some? && !Get(store, k).value.used && !Expired(Get(store, k).value, now, ttl)
                    then Get(store, k) else None)
  {
    var rule := AliveRule(_ => now, ttl);
    FilterKeys(store, rule);
    PutProperties(Filter(store, rule), token, Grant(if host == [] then "127.0.0.1" else host, port, now, false));
  }

  function Run(ops: seq<Op>, ttl: real): Store {
    if ops == [] then [] else Step(Run(ops[..|ops| - 1], ttl), Last(ops), ttl)
  }

  lemma RunStep(ops: seq<Op>, ttl: real, i: nat)
    requires i < |ops|
    ensures Run(ops[..i + 1], ttl) == Step(Run(ops[..i], ttl), ops[i], ttl)
  {
    assert ops[..i + 1][..i] == ops[..i];
  }

  predicate Succeeds(ops: seq<Op>, i: nat, ttl: real)
    requires i < |ops|
  {
    ops[i].Lookup? && Accepted(Run(ops[..i], ttl), ops[i].token, ops[i].at, ttl).Some?
  }

  ghost predicate IssuedOnce(ops: seq<Op>) {
    forall i, j :: 0 <= i < j < |ops| && ops[i].Issue? && ops[j].Issue? ==> ops[i].token != ops[j].token
  }

  lemma {:induction false} RunKeys(ops: seq<Op>, ttl: real, i: nat)
    requires i <= |ops|
    ensures DistinctKeys(Run(ops[..i], ttl))
    ensures forall k :: Get(Run(ops[..i], ttl), k).Some? && !Get(Run(ops[..i], ttl), k).value.used ==>
              exists j :: 0 <= j < i && ops[j].Issue? && ops[j].token == k
    decreases i
  {
    if i > 0 {
      hide Strip, Run, Step, DistinctKeys, Get;
      RunKeys(ops, ttl, i - 1);
      RunStep(ops, ttl, i - 1);
      StepKeys(Run(ops[..i - 1], ttl), ops[i - 1], ttl);
    }
  }

  /** An operation adds no unused entry except the one it issues. */
  lemma StepKeys(before: Store, op: Op, ttl: real)
    requires DistinctKeys(before)
    ensures DistinctKeys(Step(before, op, ttl))
    ensures forall k :: Get(Step(before, op, ttl), k).Some? && !Get(Step(before, op, ttl), k).value.used ==>
              (Get(before, k).Some? && !Get(before, k).value.used) || (op.Issue? && op.token == k)
  {
    hide Strip, Get, Filter, Put, DistinctKeys;
    match op {
      case Issue(token, host, port, now, limit) =>
        IssueProperties(before, token, host, port, now, limit);
      case Lookup(token, at) =>
        FilterKeys(before, AliveRule(at, ttl));
        var pruned := Filter(before, AliveRule(at, ttl));
        if Accepted(before, token, at, ttl).Some? {
          PutProperties(pruned, token, Get(pruned, Strip(token)).value.(used := true));
        }
    }
  }

  /** Used up: gone, or marked used. */
  predicate Spent(store: Store, token: string) {
    Get(store, token).None? || Get(store, token).value.used
  }

  lemma SpentStays(store: Store, op: Op, ttl: real, token: string)
    requires DistinctKeys(store) && Spent(store, token) && Strip(token) == token
    requires op.Issue? ==> op.token != token
    ensures Spent(Step(store, op, ttl), token)
    ensures op.Lookup? && Strip(op.token) == token ==> Accepted(store, op.token, op.at, ttl).None?
  {
    hide Strip;
    match op {
      case Issue(t, host, port, now, limit) => IssueProperties(store, t, host, port, now, limit);
      case Lookup(t, at) =>
        FilterKeys(store, AliveRule(at, ttl));
        var pruned := Filter(store, AliveRule(at, ttl));
        if Accepted(store, t, at, ttl).Some? {
          PutProperties(pruned, t, Get(pruned, Strip(t)).value.(used := true));
        }
    }
  }

  /** A stripped token that is spent stays so, whatever is presented, unless it is issued again. */
  lemma {:induction false} SpentForGood(ops: seq<Op>, ttl: real, i: nat, j: nat, token: string)
    requires i <= j <= |ops| && Spent(Run(ops[..i], ttl), token) && Strip(token) == token
    requires forall k :: i <= k < j && ops[k].Issue? ==> ops[k].token != token
    ensures Spent(Run(ops[..j], ttl), token)
    decreases j - i
  {
    if i < j {
      hide Spent, Step, Strip, Run, DistinctKeys;
      SpentForGood(ops, ttl, i, j - 1, token);
      RunKeys(ops, ttl, j - 1);
      RunStep(ops, ttl, j - 1);
      SpentStays(Run(ops[..j - 1], ttl), ops[j - 1], ttl, token);
    }
  }

  /** Over every run in which no token is issued twice: once a token was accepted in its own stripped form, no
      presentation of it is accepted again. */
  lemma SingleUse(ops: seq<Op>, ttl: real, i: nat, j: nat)
    requires IssuedOnce(ops) && i < j < |ops|
    requires Succeeds(ops, i, ttl) && Succeeds(ops, j, ttl) && Strip(ops[i].token) == ops[i].token
    ensures ops[i].token != Strip(ops[j].token)
  {
    hide Strip, Spent, Accepted, AfterLookup, Run, DistinctKeys, Get;
    var token, at := ops[i].token, ops[i].at;
    var before := Run(ops[..i], ttl);
    RunKeys(ops, ttl, i);
    RunKeys(ops, ttl, j);
    AcceptedWithinLimit(before, token, at, ttl);
    var origin :| 0 <= origin < i && ops[origin].Issue? && ops[origin].token == token;
    SuccessSpends(before, token, at, ttl);
    RunStep(ops, ttl, i);
    assert Spent(Run(ops[..i + 1], ttl), token);
    SpentForGood(ops, ttl, i + 1, j, token);
    if Strip(ops[j].token) == token {
      SpentStays(Run(ops[..j], ttl), ops[j], ttl, token);
    }
  }

  /** After the first `i + 1` operations, `later` ends with one more accepted presentation of the same token. */
  ghost predicate AcceptedAgain(ops: seq<Op>, i: nat, later: seq<Op>, ttl: real)
    requires i < |ops|
  {
    var run := ops[..i + 1] + later;
    && IssuedOnce(run) && later != [] && Succeeds(run, |run| - 1, ttl)
    && Strip(Last(run).token) == Strip(ops[i].token)
  }

  /** After an accepted lookup, some continuation that issues no token twice has another presentation of the
      token accepted exactly when the first was not its own stripped form. */
  lemma ReusableExactly(ops: seq<Op>, i: nat, ttl: real)
    requires IssuedOnce(ops) && i < |ops| && Succeeds(ops, i, ttl)
    ensures (exists later :: AcceptedAgain(ops, i, later, ttl)) <==> ops[i].token != Strip(ops[i].token)
  {
    hide Strip, Accepted, AfterLookup;
    var token := ops[i].token;
    if token != Strip(token) {
      RepeatSucceeds(ops, i, ttl);
      assert AcceptedAgain(ops, i, [ops[i]], ttl);
    } else {
      forall later
        ensures !AcceptedAgain(ops, i, later, ttl)
      {
        if AcceptedAgain(ops, i, later, ttl) {
          var run := ops[..i + 1] + later;
          assert run[i] == ops[i] && run[..i] == ops[..i];
          assert Succeeds(run, i, ttl);
          SingleUse(run, ttl, i, |run| - 1);
          assert false;
        }
      }
    }
  }

  /** Presenting a padded token again at once succeeds. */
  lemma RepeatSucceeds(ops: seq<Op>, i: nat, ttl: real)
    requires IssuedOnce(ops) && i < |ops| && Succeeds(ops, i, ttl) && ops[i].token != Strip(ops[i].token)
    ensures AcceptedAgain(ops, i, [ops[i]], ttl)
  {
    hide Strip, Accepted, AfterLookup;
    var run := ops[..i + 1] + [ops[i]];
    var before := Run(ops[..i], ttl);
    RunKeys(ops, ttl, i);
    AcceptedWithinLimit(before, ops[i].token, ops[i].at, ttl);
    SecondUseExactly(before, ops[i].token, ops[i].token, ops[i].at, ops[i].at, ttl);
    assert run[..i + 1] == ops[..i + 1] && ops[..i + 1][..i] == ops[..i];
    assert Run(run[..i + 1], ttl) == AfterLookup(before, ops[i].token, ops[i].at, ttl);
  }

  lemma SuccessSpends(store: Store, token: string, at: Readings, ttl: real)
    requires DistinctKeys(store) && Accepted(store, token, at, ttl).Some? && Strip(token) == token
    ensures Spent(AfterLookup(store, token, at, ttl), token)
  {
    hide Strip;
    var pruned := Filter(store, AliveRule(at, ttl));
    PutProperties(pruned, token, Get(pruned, token).value.(used := true));
  }

  // ----- a token that is used twice -----

  /** The token `t` is issued, then presented twice with a blank in front. */
  const TWICE: seq<Op> := [Issue("t", "h", 5900, 0.0, 30.0), Lookup(" t", _ => 1.0), Lookup(" t", _ => 2.0)]

  /** Both presentations succeed. */
  lemma PaddedTokenSucceedsTwice()
    ensures IssuedOnce(TWICE) && Succeeds(TWICE, 1, 30.0) && Succeeds(TWICE, 2, 30.0)
  {
    hide Put, Get, Filter, Strip;
    var ttl := 30.0;
    PaddedStrip();
    assert TWICE[..1][..0] == [] && TWICE[..2][..1] == TWICE[..1];
    assert Run([], ttl) == [];
    var first, second := Run(TWICE[..1], ttl), Run(TWICE[..2], ttl);
    assert first == AfterIssue([], "t", "h", 5900, 0.0, ttl);
    IssueProperties([], "t", "h", 5900, 0.0, ttl);
    FilterKeys(first, AliveRule(_ => 1.0, ttl));
    assert TWICE[1] == Lookup(" t", TWICE[1].at);
    FilterKeys(first, AliveRule(TWICE[1].at, ttl));
    assert Accepted(first, " t", TWICE[1].at, ttl).Some?;
    assert second == AfterLookup(first, " t", TWICE[1].at, ttl);
    SecondUseExactly(first, " t", " t", TWICE[1].at, TWICE[2].at, ttl);
  }

  lemma PaddedStrip()
    ensures Strip(" t") == "t" && Strip("t") == "t" && Strip("h") == "h"
  {
    StripOfStripped("t");
    StripOfStripped("h");
    StripPadding(" ", "t", "");
    assert " " + "t" + "" == " t";
  }
}
