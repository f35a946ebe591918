/** The session protocol as a state machine, and what holds over every run of it from the empty store. */
module SessionRuns {
  import opened Prelude
  import opened Text
  import opened SessionSpec

  /** One operation, with the clock reading and the generated tokens it used. A `Login` is one whose
      credentials were accepted; `users` says which user names exist and are enabled at that moment. */
  datatype Op =
    | Login(username: string, role: string, tenant: Option<string>, id: string, access: string, refresh: string,
            remoteAddr: string, userAgent: string, now: int)
    | Refresh(token: string, now: int, users: string -> bool, access: string)
    | Resolve(token: string, now: int)
    | Logout(accessToken: string, refreshToken: string)
    | RevokeUser(username: string)

  function Step(l: Limits, ss: seq<Session>, op: Op): seq<Session> {
    match op
    case Login(username, role, tenant, id, access, refresh, addr, agent, now) =>
      Enforced(l, ss, username, now) + [NewSession(l, id, username, role, tenant, access, refresh, addr, agent, now)]
    case Refresh(token, now, users, access) =>
      Refreshed(l, ss, Strip(token), now, users, access)
    case Resolve(token, now) =>
      if Strip(token) == [] then ss else Resolved(l, ss, Strip(token), now)
    case Logout(at, rt) =>
      RevokeWhere(ss, s => RevokeTargets(s, Strip(at), Strip(rt)))
    case RevokeUser(username) =>
      if Fold(username) == [] then ss
      else RevokeWhere(ss, (s: Session) => !s.revoked && OfUser(s, Fold(username)))
  }

  /** Whether the operation hands out or confirms credentials. */
  predicate Accepts(l: Limits, ss: seq<Session>, op: Op) {
    match op
    case Login(_, _, _, _, _, _, _, _, _) => true
    case Refresh(token, now, users, _) => RefreshAccepts(l, ss, Strip(token), now, users)
    case Resolve(token, now) => Strip(token) != [] && ResolveHit(l, ss, Strip(token), now) < |ss|
    case _ => false
  }

  function Run(l: Limits, ops: seq<Op>): seq<Session> {
    if ops == [] then [] else Step(l, Run(l, ops[..|ops| - 1]), Last(ops))
  }

  lemma RunStep(l: Limits, ops: seq<Op>, i: nat)
    requires i < |ops|
    ensures Run(l, ops[..i + 1]) == Step(l, Run(l, ops[..i]), ops[i])
  {
    assert ops[..i + 1][..i] == ops[..i];
  }

  // ----- hypotheses on the token generator, the clock and the caller -----

  function Drawn(op: Op): seq<string> {
    match op
    case Login(_, _, _, _, access, refresh, _, _, _) => [access, refresh]
    case Refresh(_, _, _, access) => [access]
    case _ => []
  }

  function DrawnBy(ops: seq<Op>): seq<string> {
    if ops == [] then [] else DrawnBy(ops[..|ops| - 1]) + Drawn(Last(ops))
  }

  /** The generator never repeats itself. */
  ghost predicate Fresh(ops: seq<Op>) {
    Distinct(DrawnBy(ops))
  }

  predicate TakesClock(op: Op) {
    op.Login? || op.Refresh? || op.Resolve?
  }

  ghost predicate PositiveClock(ops: seq<Op>) {
    forall op :: op in ops && TakesClock(op) ==> op.now > 0
  }

  /** `login` only issues sessions under names that pass its name pattern. */
  ghost predicate NamedLogins(ops: seq<Op>) {
    forall op :: op in ops && op.Login? ==> Fold(op.username) != []
  }

  // ----- what one step may do to one record -----

  /** A revoked record is frozen; of a live one only the clocks, the revoked mark and a newly drawn
      access token may change. */
  ghost predicate Evolves(s: Session, t: Session, op: Op) {
    && t == s.(access := t.access, lastSeen := t.lastSeen, accessExpires := t.accessExpires, revoked := t.revoked)
    && (s.revoked ==> t == s)
    && (t.access == s.access || (op.Refresh? && t.access == op.access))
  }

  /** What a step keeps of the whole list: records evolve in place, only a login appends one, and at
      most one record receives a newly drawn access token. */
  ghost predicate Frame(l: Limits, ss: seq<Session>, after: seq<Session>, op: Op) {
    && |after| == |ss| + (if op.Login? then 1 else 0)
    && (forall i :: 0 <= i < |ss| ==> Evolves(ss[i], after[i], op))
    && (op.Login? ==> after[|ss|] == NewSession(l, op.id, op.username, op.role, op.tenant, op.access, op.refresh,
                                                op.remoteAddr, op.userAgent, op.now))
    && (forall i, j :: 0 <= i < j < |ss| ==> after[i].access == ss[i].access || after[j].access == ss[j].access)
  }

  /** The five kinds of change a list can undergo. */
  lemma RevokingFrame(l: Limits, ss: seq<Session>, after: seq<Session>, op: Op)
    requires !op.Login? && |after| == |ss|
    requires forall i :: 0 <= i < |ss| ==> after[i] == ss[i] || after[i] == Revoke(ss[i])
    ensures Frame(l, ss, after, op)
  {
  }

  lemma TouchingFrame(l: Limits, ss: seq<Session>, hit: nat, now: int, access: string, op: Op)
    requires hit < |ss| && !ss[hit].revoked && op.Refresh? && op.access == access
    ensures Frame(l, ss, ss[hit := Touch(l, ss[hit], now).(access := access)], op)
  {
  }

  lemma LoginFrame(l: Limits, ss: seq<Session>, op: Op)
    requires op.Login?
    ensures Frame(l, ss, Step(l, ss, op), op)
  {
    hide Enforced, Expired;
    var kept := Enforced(l, ss, op.username, op.now);
    EnforcedOnlyRevokes(l, ss, op.username, op.now);
    assert forall i :: 0 <= i < |ss| ==> Evolves(ss[i], kept[i], op);
  }

  lemma EnforcedOnlyRevokes(l: Limits, ss: seq<Session>, username: string, now: int)
    ensures forall i :: 0 <= i < |ss| ==>
              Enforced(l, ss, username, now)[i] == ss[i] || Enforced(l, ss, username, now)[i] == Revoke(ss[i])
  {
    hide Expired, Fold, Evicted;
  }

  lemma ResolveFrame(l: Limits, ss: seq<Session>, op: Op)
    requires op.Resolve?
    ensures Frame(l, ss, Step(l, ss, op), op)
  {
    hide Expired, Strip;
  }

  lemma RefreshFrame(l: Limits, ss: seq<Session>, op: Op)
    requires op.Refresh?
    ensures Frame(l, ss, Step(l, ss, op), op)
  {
    hide Expired, Strip, Frame;
    var token := Strip(op.token);
    var hit := RefreshHit(ss, token);
    if RefreshAccepts(l, ss, token, op.now, op.users) {
      TouchingFrame(l, ss, hit, op.now, op.access, op);
    } else {
      RevokingFrame(l, ss, Step(l, ss, op), op);
    }
  }

  lemma StepFrame(l: Limits, ss: seq<Session>, op: Op)
    ensures Frame(l, ss, Step(l, ss, op), op)
  {
    hide Frame, Fold, Strip, Enforced, Resolved, Refreshed;
    match op {
      case Login(_, _, _, _, _, _, _, _, _) => LoginFrame(l, ss, op);
      case Refresh(_, _, _, _) => RefreshFrame(l, ss, op);
      case Resolve(_, _) => ResolveFrame(l, ss, op);
      case _ => RevokingFrame(l, ss, Step(l, ss, op), op);
    }
  }

  lemma RunFrame(l: Limits, ops: seq<Op>, i: nat)
    requires i < |ops|
    ensures Frame(l, Run(l, ops[..i]), Run(l, ops[..i + 1]), ops[i])
  {
    hide Step;
    RunStep(l, ops, i);
    StepFrame(l, Run(l, ops[..i]), ops[i]);
  }

  lemma {:induction false} DrawnByPrefix(ops: seq<Op>, i: nat, j: nat)
    requires i <= j <= |ops|
    ensures DrawnBy(ops[..i]) <= DrawnBy(ops[..j])
    ensures forall t :: t in DrawnBy(ops[..i]) ==> t in DrawnBy(ops[..j])
    decreases j - i
  {
    if i < j {
      assert ops[..j][..j - 1] == ops[..j - 1];
      DrawnByPrefix(ops, i, j - 1);
    }
  }

  lemma FreshStep(ops: seq<Op>, i: nat)
    requires Fresh(ops) && i < |ops|
    ensures DrawnBy(ops[..i + 1]) == DrawnBy(ops[..i]) + Drawn(ops[i])
    ensures forall t :: t in Drawn(ops[i]) ==> t !in DrawnBy(ops[..i])
    ensures Distinct(Drawn(ops[i]))
  {
    DrawnByPrefix(ops, i + 1, |ops|);
    assert ops[..|ops|] == ops;
    assert ops[..i + 1][..i] == ops[..i];
    DistinctParts(DrawnBy(ops[..i]), Drawn(ops[i]), DrawnBy(ops));
  }

  lemma NeverRedrawn(ops: seq<Op>, i: nat, j: nat, t: string)
    requires Fresh(ops) && i <= j < |ops| && t in DrawnBy(ops[..i])
    ensures t !in Drawn(ops[j])
  {
    hide Fresh, Drawn, DrawnBy;
    DrawnByPrefix(ops, i, j);
    FreshStep(ops, j);
  }

  lemma DistinctParts(a: seq<string>, b: seq<string>, all: seq<string>)
    requires Distinct(all) && a + b <= all
    ensures Distinct(b) && forall t :: t in b ==> t !in a
  {
    assert forall k :: 0 <= k < |a| ==> all[k] == (a + b)[k] == a[k];
    assert forall k :: 0 <= k < |b| ==> all[|a| + k] == (a + b)[|a| + k] == b[k];
  }

  // ----- tokens identify sessions -----

  ghost predicate UniqueTokens(ss: seq<Session>) {
    forall i, j :: 0 <= i < j < |ss| ==> ss[i].access != ss[j].access && ss[i].refresh != ss[j].refresh
  }

  ghost predicate TokensFrom(ss: seq<Session>, drawn: seq<string>) {
    forall i :: 0 <= i < |ss| ==> ss[i].access in drawn && ss[i].refresh in drawn
  }

  lemma UniqueTokensStep(l: Limits, ss: seq<Session>, after: seq<Session>, op: Op, drawn: seq<string>)
    requires Frame(l, ss, after, op) && UniqueTokens(ss) && TokensFrom(ss, drawn)
    requires forall t :: t in Drawn(op) ==> t !in drawn
    ensures UniqueTokens(after) && TokensFrom(after, drawn + Drawn(op))
  {
    hide Evolves;
    forall i | 0 <= i < |after|
      ensures after[i].access in drawn + Drawn(op) && after[i].refresh in drawn + Drawn(op)
      ensures i < |ss| ==> after[i].refresh == ss[i].refresh
      ensures i < |ss| ==> after[i].access == ss[i].access || (op.Refresh? && after[i].access == op.access)
    {
      if i < |ss| { EvolvesTokens(ss[i], after[i], op); }
    }
  }

  lemma EvolvesTokens(s: Session, t: Session, op: Op)
    requires Evolves(s, t, op)
    ensures t.refresh == s.refresh && (t.access == s.access || (op.Refresh? && t.access == op.access))
  {
  }

  lemma {:induction false} TokensAreUnique(l: Limits, ops: seq<Op>, i: nat)
    requires Fresh(ops) && i <= |ops|
    ensures UniqueTokens(Run(l, ops[..i])) && TokensFrom(Run(l, ops[..i]), DrawnBy(ops[..i]))
    decreases i
  {
    if i == 0 {
      assert ops[..0] == [];
    } else {
      hide Step, Run, Frame, Drawn, DrawnBy, UniqueTokens, TokensFrom, Fresh;
      TokensAreUnique(l, ops, i - 1);
      FreshStep(ops, i - 1);
      RunFrame(l, ops, i - 1);
      UniqueTokensStep(l, Run(l, ops[..i - 1]), Run(l, ops[..i]), ops[i - 1], DrawnBy(ops[..i - 1]));
    }
  }

  // ----- dead tokens stay dead -----

  ghost predicate LiveAccess(ss: seq<Session>, t: string) {
    exists k :: 0 <= k < |ss| && !ss[k].revoked && ss[k].access == t
  }

  ghost predicate LiveRefresh(ss: seq<Session>, t: string) {
    exists k :: 0 <= k < |ss| && !ss[k].revoked && ss[k].refresh == t
  }

  lemma DeadStep(l: Limits, ss: seq<Session>, after: seq<Session>, op: Op, t: string)
    requires Frame(l, ss, after, op) && t !in Drawn(op)
    ensures !LiveAccess(ss, t) ==> !LiveAccess(after, t)
    ensures !LiveRefresh(ss, t) ==> !LiveRefresh(after, t)
  {
  }

  lemma {:induction false} DeadTokensStayDead(l: Limits, ops: seq<Op>, i: nat, j: nat, t: string)
    requires Fresh(ops) && i <= j <= |ops|
    requires t in DrawnBy(ops[..i])
    ensures !LiveAccess(Run(l, ops[..i]), t) ==> !LiveAccess(Run(l, ops[..j]), t)
    ensures !LiveRefresh(Run(l, ops[..i]), t) ==> !LiveRefresh(Run(l, ops[..j]), t)
    decreases j - i
  {
    hide Step, Run, Frame, Fresh, DrawnBy, Drawn, LiveAccess, LiveRefresh;
    if i < j {
      DeadTokensStayDead(l, ops, i, j - 1, t);
      NeverRedrawn(ops, i, j - 1, t);
      RunFrame(l, ops, j - 1);
      DeadStep(l, Run(l, ops[..j - 1]), Run(l, ops[..j]), ops[j - 1], t);
    }
  }

  /** A credential with no live record behind it is refused. */
  lemma DeadTokenIsRefused(l: Limits, ss: seq<Session>, op: Op)
    requires op.Resolve? ==> !LiveAccess(ss, Strip(op.token))
    requires op.Refresh? ==> !LiveRefresh(ss, Strip(op.token))
    requires op.Resolve? || op.Refresh?
    ensures !Accepts(l, ss, op)
  {
  }

  lemma RevokedIsDead(ss: seq<Session>, k: nat)
    requires UniqueTokens(ss) && k < |ss| && ss[k].revoked
    ensures !LiveAccess(ss, ss[k].access) && !LiveRefresh(ss, ss[k].refresh)
  {
  }

  /** Once a session is revoked, by whatever operation, neither of its tokens is ever accepted again. */
  lemma RevokedSessionNeverReturns(l: Limits, ops: seq<Op>, i: nat, k: nat, j: nat)
    requires Fresh(ops) && i <= j < |ops|
    ensures var ss := Run(l, ops[..i]);
            k < |ss| && ss[k].revoked ==>
              && (ops[j].Resolve? && Strip(ops[j].token) == ss[k].access ==> !Accepts(l, Run(l, ops[..j]), ops[j]))
              && (ops[j].Refresh? && Strip(ops[j].token) == ss[k].refresh ==> !Accepts(l, Run(l, ops[..j]), ops[j]))
  {
    hide Step, Run, Accepts, Fresh, DrawnBy, UniqueTokens, LiveAccess, LiveRefresh;
    TokensAreUnique(l, ops, i);
    if k < |Run(l, ops[..i])| && Run(l, ops[..i])[k].revoked {
      var s := Run(l, ops[..i])[k];
      RevokedIsDead(Run(l, ops[..i]), k);
      DeadTokensStayDead(l, ops, i, j, s.access);
      DeadTokensStayDead(l, ops, i, j, s.refresh);
      if (ops[j].Resolve? && Strip(ops[j].token) == s.access) || (ops[j].Refresh? && Strip(ops[j].token) == s.refresh) {
        DeadTokenIsRefused(l, Run(l, ops[..j]), ops[j]);
      }
    }
  }

  /** The access token a successful refresh replaced is never accepted again. */
  lemma ReplacedTokenNeverReturns(l: Limits, ops: seq<Op>, i: nat, j: nat)
    requires Fresh(ops) && i < j < |ops|
    requires ops[i].Refresh? && Accepts(l, Run(l, ops[..i]), ops[i])
    ensures var ss := Run(l, ops[..i]);
            ops[j].Resolve? && Strip(ops[j].token) == ss[RefreshHit(ss, Strip(ops[i].token))].access ==>
              !Accepts(l, Run(l, ops[..j]), ops[j])
  {
    var ss := Run(l, ops[..i]);
    var hit := RefreshHit(ss, Strip(ops[i].token));
    TokensAreUnique(l, ops, i);
    TokensAreUnique(l, ops, i + 1);
    FreshStep(ops, i);
    RunStep(l, ops, i);
    var after := Run(l, ops[..i + 1]);
    assert after[hit].access == ops[i].access;
    assert !LiveAccess(after, ss[hit].access);
    DeadTokensStayDead(l, ops, i + 1, j, ss[hit].access);
    if ops[j].Resolve? && Strip(ops[j].token) == ss[hit].access {
      DeadTokenIsRefused(l, Run(l, ops[..j]), ops[j]);
    }
  }

  /** What a session is given at login and never changes: whose it is, in which role, and when it began. */
  predicate SameLogin(s: Session, t: Session) {
    && t.id == s.id && t.refresh == s.refresh && t.created == s.created
    && t.username == s.username && t.role == s.role && t.tenant == s.tenant
  }

  lemma FrameAt(l: Limits, ss: seq<Session>, after: seq<Session>, op: Op, k: nat)
    requires Frame(l, ss, after, op) && k < |ss|
    ensures k < |after| && SameLogin(ss[k], after[k])
    ensures ss[k].revoked ==> after[k] == ss[k]
  {
  }

  lemma SameLoginChain(s: Session, t: Session, u: Session)
    ensures SameLogin(s, s)
    ensures SameLogin(s, t) && SameLogin(t, u) ==> SameLogin(s, u)
  {
  }

  /** Nothing un-revokes a session, drops it from the list, or changes whose it is and in which role. */
  lemma {:induction false} RevocationIsPermanent(l: Limits, ops: seq<Op>, i: nat, j: nat, k: nat)
    requires i <= j <= |ops| && k < |Run(l, ops[..i])|
    ensures k < |Run(l, ops[..j])|
    ensures SameLogin(Run(l, ops[..i])[k], Run(l, ops[..j])[k])
    ensures Run(l, ops[..i])[k].revoked ==> Run(l, ops[..j])[k] == Run(l, ops[..i])[k]
    decreases j - i
  {
    hide Step, Run, Frame, SameLogin;
    var s := Run(l, ops[..i])[k];
    if i < j {
      RevocationIsPermanent(l, ops, i, j - 1, k);
      RunFrame(l, ops, j - 1);
      FrameAt(l, Run(l, ops[..j - 1]), Run(l, ops[..j]), ops[j - 1], k);
      SameLoginChain(s, Run(l, ops[..j - 1])[k], Run(l, ops[..j])[k]);
    } else {
      SameLoginChain(s, s, s);
    }
  }

  // ----- the list scans are lookups -----

  /** The index from access token to position that the linear scans stand for. */
  ghost function AccessIndex(ss: seq<Session>): (m: map<string, nat>)
    requires UniqueTokens(ss)
    ensures forall t :: t in m ==> m[t] < |ss| && ss[m[t]].access == t
    ensures forall i :: 0 <= i < |ss| ==> ss[i].access in m
  {
    map i: nat | i < |ss| :: ss[i].access := i
  }

  ghost function RefreshIndex(ss: seq<Session>): (m: map<string, nat>)
    requires UniqueTokens(ss)
    ensures forall t :: t in m ==> m[t] < |ss| && ss[m[t]].refresh == t
    ensures forall i :: 0 <= i < |ss| ==> ss[i].refresh in m
  {
    map i: nat | i < |ss| :: ss[i].refresh := i
  }

  lemma LookupFindsHit(l: Limits, ss: seq<Session>, t: string, now: int)
    requires UniqueTokens(ss)
    ensures var index := AccessIndex(ss);
            ResolveHit(l, ss, t, now) == if t in index && !Expired(l, ss[index[t]], now, true) then index[t] else |ss|
  {
    hide Expired;
    var index := AccessIndex(ss);
    var hit := ResolveHit(l, ss, t, now);
    if t in index && !Expired(l, ss[index[t]], now, true) {
      assert !ss[index[t]].revoked by { RevokedIsExpired(l, ss[index[t]], now); }
    }
  }

  lemma ResolvedByLookup(l: Limits, ss: seq<Session>, t: string, now: int)
    requires UniqueTokens(ss)
    ensures var index := AccessIndex(ss);
            Resolved(l, ss, t, now) ==
              if t !in index || ss[index[t]].revoked then ss
              else if Expired(l, ss[index[t]], now, true) then ss[index[t] := Revoke(ss[index[t]])]
              else ss[index[t] := Touch(l, ss[index[t]], now)]
  {
    hide AccessIndex, ResolveHit, Expired;
    LookupFindsHit(l, ss, t, now);
    if t in AccessIndex(ss) {
      var k := AccessIndex(ss)[t];
      assert forall i :: 0 <= i < |ss| && i != k ==> ss[i].access != t;
      RevokedIsExpired(l, ss[k], now);
    }
  }

  /** In every reachable state, resolving a token is one lookup in the index. */
  lemma ResolveIsLookup(l: Limits, ops: seq<Op>, token: string, now: int)
    requires Fresh(ops)
    ensures UniqueTokens(Run(l, ops))
    ensures var ss := Run(l, ops);
            var t := Strip(token);
            var index := AccessIndex(ss);
            && Accepts(l, ss, Resolve(token, now)) ==
               (t != [] && t in index && !Expired(l, ss[index[t]], now, true))
            && Step(l, ss, Resolve(token, now)) ==
               (if t == [] || t !in index || ss[index[t]].revoked then ss
                else if Expired(l, ss[index[t]], now, true) then ss[index[t] := Revoke(ss[index[t]])]
                else ss[index[t] := Touch(l, ss[index[t]], now)])
  {
    hide Run, Strip, AccessIndex, ResolveHit, Resolved, Expired, UniqueTokens, TokensFrom;
    assert ops[..|ops|] == ops;
    TokensAreUnique(l, ops, |ops|);
    LookupFindsHit(l, Run(l, ops), Strip(token), now);
    ResolvedByLookup(l, Run(l, ops), Strip(token), now);
  }

  lemma RefreshFindsHit(ss: seq<Session>, t: string)
    requires UniqueTokens(ss)
    ensures var index := RefreshIndex(ss);
            RefreshHit(ss, t) == if t in index && !ss[index[t]].revoked then index[t] else |ss|
  {
    if t in RefreshIndex(ss) {
      var k := RefreshIndex(ss)[t];
      assert forall i :: 0 <= i < |ss| && i != k ==> ss[i].refresh != t;
    }
  }

  /** In every reachable state, refreshing is one lookup in the index. */
  lemma RefreshIsLookup(l: Limits, ops: seq<Op>, token: string, now: int, users: string -> bool, access: string)
    requires Fresh(ops)
    ensures UniqueTokens(Run(l, ops))
    ensures var ss := Run(l, ops);
            var t := Strip(token);
            var index := RefreshIndex(ss);
            var op := Refresh(token, now, users, access);
            && Accepts(l, ss, op) ==
               (t != [] && t in index && !Expired(l, ss[index[t]], now, false) && users(Strip(ss[index[t]].username)))
            && Step(l, ss, op) ==
               (if t == [] || t !in index || ss[index[t]].revoked then ss
                else if Accepts(l, ss, op) then ss[index[t] := Touch(l, ss[index[t]], now).(access := access)]
                else ss[index[t] := Revoke(ss[index[t]])])
  {
    hide Run, Strip, RefreshIndex, RefreshHit, Expired, UniqueTokens, TokensFrom;
    assert ops[..|ops|] == ops;
    TokensAreUnique(l, ops, |ops|);
    var ss, t := Run(l, ops), Strip(token);
    RefreshFindsHit(ss, t);
    if t in RefreshIndex(ss) {
      RevokedIsExpired(l, ss[RefreshIndex(ss)[t]], now);
    }
  }

  // ----- the acceptance window -----

  ghost predicate Clocks(l: Limits, s: Session) {
    && 0 < s.created && 0 < s.lastSeen
    && s.accessExpires == s.lastSeen + l.accessTtl
    && s.refreshExpires == s.created + l.refreshTtl
    && s.absoluteExpires == s.created + l.absolute
  }

  lemma {:induction false} ClocksStep(l: Limits, ss: seq<Session>, op: Op)
    requires TakesClock(op) ==> op.now > 0
    requires forall k :: 0 <= k < |ss| ==> Clocks(l, ss[k])
    ensures forall k :: 0 <= k < |Step(l, ss, op)| ==> Clocks(l, Step(l, ss, op)[k])
  {
  }

  lemma {:induction false} ClocksInEveryState(l: Limits, ops: seq<Op>)
    requires PositiveClock(ops)
    ensures forall k :: 0 <= k < |Run(l, ops)| ==> Clocks(l, Run(l, ops)[k])
  {
    if ops != [] {
      hide Step, Clocks;
      var init := ops[..|ops| - 1];
      assert forall op :: op in init ==> op in ops;
      assert Last(ops) in ops;
      ClocksInEveryState(l, init);
      ClocksStep(l, Run(l, init), Last(ops));
    }
  }

  /** In every reachable state a live session is accepted exactly inside two windows, and the absolute
      limit never decides: it lies beyond the refresh limit. */
  lemma AcceptanceWindow(l: Limits, ops: seq<Op>, now: int)
    requires Sane(l) && PositiveClock(ops)
    ensures forall s :: s in Run(l, ops) ==>
              && (!Expired(l, s, now, true) <==>
                    !s.revoked && now <= Min(s.lastSeen + Min(l.idle, l.accessTtl), s.created + l.refreshTtl))
              && (!Expired(l, s, now, false) <==>
                    !s.revoked && now <= Min(s.lastSeen + l.idle, s.created + l.refreshTtl))
              && (now > s.absoluteExpires ==> now > s.refreshExpires)
  {
    hide Run, Expired;
    ClocksInEveryState(l, ops);
    forall s | s in Run(l, ops)
      ensures !Expired(l, s, now, true) <==>
                !s.revoked && now <= Min(s.lastSeen + Min(l.idle, l.accessTtl), s.created + l.refreshTtl)
      ensures !Expired(l, s, now, false) <==> !s.revoked && now <= Min(s.lastSeen + l.idle, s.created + l.refreshTtl)
      ensures now > s.absoluteExpires ==> now > s.refreshExpires
    {
      WindowOf(l, s, now);
    }
  }

  lemma WindowOf(l: Limits, s: Session, now: int)
    requires Sane(l) && Clocks(l, s)
    ensures !Expired(l, s, now, true) <==>
              !s.revoked && now <= Min(s.lastSeen + Min(l.idle, l.accessTtl), s.created + l.refreshTtl)
    ensures !Expired(l, s, now, false) <==> !s.revoked && now <= Min(s.lastSeen + l.idle, s.created + l.refreshTtl)
    ensures now > s.absoluteExpires ==> now > s.refreshExpires
  {
  }

  /** Each limit of `l` is at least that of `m`. */
  predicate AtLeast(l: Limits, m: Limits) {
    && l.accessTtl >= m.accessTtl && l.refreshTtl >= m.refreshTtl && l.idle >= m.idle
    && l.absolute >= m.absolute && l.cap >= m.cap
  }

  /** The constructor makes of every configuration the least sane limits that are nowhere below it. */
  lemma LimitsAreSane(a: int, r: int, i: int, b: int, c: int)
    ensures Sane(MakeLimits(a, r, i, b, c)) && AtLeast(MakeLimits(a, r, i, b, c), Limits(a, r, i, b, c))
    ensures forall l :: Sane(l) && AtLeast(l, Limits(a, r, i, b, c)) ==> AtLeast(l, MakeLimits(a, r, i, b, c))
  {
  }

  // ----- what the tokens handed out are good for -----

  /** A token as the generator makes them. */
  predicate Usable(token: string) {
    token != [] && Stripped(token)
  }

  lemma IndexedAt(ss: seq<Session>, k: nat)
    requires UniqueTokens(ss) && k < |ss|
    ensures ss[k].access in AccessIndex(ss) && AccessIndex(ss)[ss[k].access] == k
    ensures ss[k].refresh in RefreshIndex(ss) && RefreshIndex(ss)[ss[k].refresh] == k
  {
    hide AccessIndex, RefreshIndex;
  }

  /** Where tokens are unique, the tokens of a live record are good for that record, in its two windows. */
  lemma TokensOpen(l: Limits, ss: seq<Session>, k: nat, t: int, users: string -> bool, access: string)
    requires Sane(l) && UniqueTokens(ss) && k < |ss| && !ss[k].revoked && Clocks(l, ss[k])
    requires Usable(ss[k].access) && Usable(ss[k].refresh)
    ensures var s := ss[k];
            var accepted := Accepts(l, ss, Resolve(s.access, t));
            && (accepted <==> t <= Min(s.lastSeen + Min(l.idle, l.accessTtl), s.created + l.refreshTtl))
            && (accepted ==> ResolveHit(l, ss, s.access, t) == k)
    ensures var s := ss[k];
            && RefreshHit(ss, s.refresh) == k
            && (Accepts(l, ss, Refresh(s.refresh, t, users, access)) <==>
                  users(Strip(s.username)) && t <= Min(s.lastSeen + l.idle, s.created + l.refreshTtl))
  {
    hide Expired, Clocks, Strip, AccessIndex, RefreshIndex, ResolveHit, RefreshHit, UniqueTokens, Stripped;
    StripOfStripped(ss[k].access);
    StripOfStripped(ss[k].refresh);
    IndexedAt(ss, k);
    RefreshFindsHit(ss, ss[k].refresh);
    LookupFindsHit(l, ss, ss[k].access, t);
    WindowOf(l, ss[k], t);
  }

  /** What a login hands out: an access token that resolves for as long as neither the idle time nor a
      lifetime has run out, and a refresh token that continues the session for as long as its user may and
      neither the idle time nor the refresh lifetime has; both stand for a session of the user who logged in,
      and neither serves as the other. */
  lemma LoginOpensItsSession(l: Limits, ops: seq<Op>, op: Op, t: int, users: string -> bool, access: string)
    requires Sane(l) && op.Login? && Fresh(ops + [op]) && PositiveClock(ops + [op])
    requires Usable(op.access) && Usable(op.refresh)
    ensures var ss := Run(l, ops + [op]);
            var accepted := Accepts(l, ss, Resolve(op.access, t));
            && (accepted <==> t <= op.now + Min(Min(l.idle, l.accessTtl), l.refreshTtl))
            && (accepted ==> OpenedBy(op, ss, ResolveHit(l, ss, op.access, t)))
            && !Accepts(l, ss, Refresh(op.access, t, users, access))
    ensures var ss := Run(l, ops + [op]);
            && (Accepts(l, ss, Refresh(op.refresh, t, users, access)) <==>
                  users(Strip(op.username)) && t <= op.now + Min(l.idle, l.refreshTtl))
            && OpenedBy(op, ss, RefreshHit(ss, op.refresh))
            && !Accepts(l, ss, Resolve(op.refresh, t))
  {
    hide Run, Expired, Clocks, Step, Accepts, ResolveHit, RefreshHit, UniqueTokens, TokensFrom, Usable, Fresh, PositiveClock, DrawnBy;
    var all, k := ops + [op], |Run(l, ops)|;
    assert all[..|all|] == all && all[..|ops|] == ops;
    TokensAreUnique(l, all, |all|);
    ClocksInEveryState(l, all);
    LoginRecord(l, ops, op);
    TokensOpen(l, Run(l, all), k, t, users, access);
    TokensKeepApart(l, ops, op);
    RefusedAsTheOther(l, Run(l, all), op.access, op.refresh, t, users, access);
  }

  /** Record `k` is the session of the login `op`. */
  predicate OpenedBy(op: Op, ss: seq<Session>, k: nat)
    requires op.Login?
  {
    && k < |ss| && ss[k].id == op.id && ss[k].username == op.username && ss[k].role == op.role
    && ss[k].tenant == op.tenant && ss[k].remoteAddr == op.remoteAddr && ss[k].userAgent == op.userAgent
  }

  lemma LoginRecord(l: Limits, ops: seq<Op>, op: Op)
    requires op.Login?
    ensures var ss, k := Run(l, ops + [op]), |Run(l, ops)|;
            && OpenedBy(op, ss, k) && !ss[k].revoked && ss[k].access == op.access && ss[k].refresh == op.refresh
            && ss[k].created == op.now && ss[k].lastSeen == op.now
  {
    hide Step, Run, Evolves;
    var all := ops + [op];
    assert all[..|ops|] == ops && all[..|ops| + 1] == all;
    RunStep(l, all, |ops|);
    LoginFrame(l, Run(l, ops), op);
  }

  /** The two tokens of a login are not those of any record the other way round. */
  lemma TokensKeepApart(l: Limits, ops: seq<Op>, op: Op)
    requires op.Login? && Fresh(ops + [op])
    ensures var ss := Run(l, ops + [op]);
            forall i :: 0 <= i < |ss| ==> ss[i].access != op.refresh && ss[i].refresh != op.access
  {
    hide Step, Fresh;
    var all, before, after := ops + [op], Run(l, ops), Run(l, ops + [op]);
    assert all[..|ops|] == ops && all[..|ops| + 1] == all;
    TokensAreUnique(l, all, |ops|);
    FreshStep(all, |ops|);
    assert op.access == Drawn(op)[0] && op.refresh == Drawn(op)[1];
    RunFrame(l, all, |ops|);
    assert Frame(l, before, after, op);
  }

  lemma RefusedAsTheOther(l: Limits, ss: seq<Session>, at: string, rt: string, t: int, users: string -> bool, access: string)
    requires Usable(at) && Usable(rt)
    requires forall i :: 0 <= i < |ss| ==> ss[i].access != rt && ss[i].refresh != at
    ensures !Accepts(l, ss, Resolve(rt, t)) && !Accepts(l, ss, Refresh(at, t, users, access))
  {
    StripOfStripped(at);
    StripOfStripped(rt);
  }

  /** What a refresh hands out: an access token for the same session, with the windows counted from the
      refresh and the refresh lifetime still from the login. */
  lemma RefreshHandsOnTheSession(l: Limits, ops: seq<Op>, op: Op, t: int, users: string -> bool, access: string)
    requires Sane(l) && op.Refresh? && Fresh(ops + [op]) && PositiveClock(ops + [op]) && Usable(op.access)
    requires Accepts(l, Run(l, ops), op)
    ensures var before, ss := Run(l, ops), Run(l, ops + [op]);
            var k := RefreshHit(before, Strip(op.token));
            var accepted := Accepts(l, ss, Resolve(op.access, t));
            && |ss| == |before| && SameLogin(before[k], ss[k])
            && (accepted <==> t <= Min(op.now + Min(l.idle, l.accessTtl), before[k].created + l.refreshTtl))
            && (accepted ==> ResolveHit(l, ss, op.access, t) == k)
            && (Accepts(l, ss, Refresh(op.token, t, users, access)) <==>
                  users(Strip(before[k].username)) && t <= Min(op.now + l.idle, before[k].created + l.refreshTtl))
  {
    hide Run, Expired, Clocks, Step, Accepts, ResolveHit, RefreshHit, UniqueTokens, TokensFrom, Fresh, PositiveClock, DrawnBy;
    var all := ops + [op];
    assert all[..|all|] == all && all[..|ops|] == ops;
    TokensAreUnique(l, all, |all|);
    ClocksInEveryState(l, all);
    RefreshedRecord(l, ops, op);
    var k := RefreshHit(Run(l, ops), Strip(op.token));
    TokensOpen(l, Run(l, all), k, t, users, access);
    SameToken(l, Run(l, all), Run(l, all)[k].refresh, op.token, t, users, access);
  }

  lemma RefreshedRecord(l: Limits, ops: seq<Op>, op: Op)
    requires op.Refresh? && Accepts(l, Run(l, ops), op)
    ensures var before, ss := Run(l, ops), Run(l, ops + [op]);
            var k := RefreshHit(before, Strip(op.token));
            && k < |before| == |ss| && SameLogin(before[k], ss[k]) && !ss[k].revoked
            && ss[k].access == op.access && ss[k].refresh == Strip(op.token) && Usable(ss[k].refresh)
            && ss[k].lastSeen == op.now
  {
    hide Expired, Strip, Run;
    var before, token := Run(l, ops), Strip(op.token);
    RunStep(l, ops + [op], |ops|);
    assert (ops + [op])[..|ops|] == ops && (ops + [op])[..|ops| + 1] == ops + [op];
    assert Run(l, ops + [op]) == Refreshed(l, before, token, op.now, op.users, op.access);
    assert RefreshAccepts(l, before, token, op.now, op.users);
    StripIsStripped(op.token);
  }

  lemma SameToken(l: Limits, ss: seq<Session>, stripped: string, token: string, t: int, users: string -> bool, access: string)
    requires Strip(token) == stripped
    ensures Accepts(l, ss, Refresh(token, t, users, access)) == Accepts(l, ss, Refresh(stripped, t, users, access))
  {
    StripIsStripped(token);
  }

  // ----- the cap -----

  ghost function Unrevoked(ss: seq<Session>, user: string): set<nat> {
    set i: nat | i < |ss| && !ss[i].revoked && OfUser(ss[i], user)
  }

  ghost predicate CapHolds(l: Limits, ss: seq<Session>) {
    forall user :: |Unrevoked(ss, user)| <= l.cap
  }

  lemma SubsetSize<T>(a: set<T>, b: set<T>)
    requires a <= b
    ensures |a| <= |b|
  {
    assert b == a + (b - a);
  }

  ghost function Elements(idx: seq<nat>): set<nat> {
    set x | x in idx
  }

  lemma {:induction false} DistinctSize(idx: seq<nat>)
    requires Distinct(idx)
    ensures |Elements(idx)| == |idx|
  {
    if idx != [] {
      DistinctSize(idx[1..]);
      assert Elements(idx) == {idx[0]} + Elements(idx[1..]);
    }
  }

  /** What enforcing the cap keeps: the user's active sessions except the oldest `Excess` of them. */
  lemma {:induction false} EnforcedKeeps(l: Limits, ss: seq<Session>, username: string, now: int)
    requires 0 < l.cap && Fold(username) != []
    ensures var user := Fold(username);
            var active := SortedActive(l, ss, user, now);
            && Unrevoked(Enforced(l, ss, username, now), user) == Elements(active[Excess(l, |active|)..])
            && |Unrevoked(Enforced(l, ss, username, now), user)| == |active| - Excess(l, |active|) < l.cap
  {
    hide Fold, SortedActive, Expired;
    var user := Fold(username);
    var active := SortedActive(l, ss, user, now);
    var cut := Excess(l, |active|);
    var after := Enforced(l, ss, username, now);
    SortedActiveProperties(l, ss, user, now);
    assert Evicted(l, ss, user, now) == active[..cut];
    forall i: nat
      ensures i in Unrevoked(after, user) <==> i in active[cut..]
    {
      if i < |ss| { RevokedIsExpired(l, ss[i], now); }
      SplitMembers(active, cut, i);
    }
    assert Unrevoked(after, user) == Elements(active[cut..]);
    DistinctSize(active[cut..]);
  }

  lemma SplitMembers(s: seq<nat>, cut: nat, x: nat)
    requires Distinct(s) && cut <= |s|
    ensures x in s[cut..] <==> x in s && x !in s[..cut]
  {
    assert s == s[..cut] + s[cut..];
  }

  lemma EnforcedSparesOthers(l: Limits, ss: seq<Session>, username: string, now: int, other: string)
    requires other != Fold(username)
    ensures Unrevoked(Enforced(l, ss, username, now), other) == Unrevoked(ss, other)
  {
    hide Fold, SortedActive, Expired;
  }

  lemma LoginKeepsCap(l: Limits, ss: seq<Session>, op: Op, user: string)
    requires 0 < l.cap && CapHolds(l, ss) && op.Login? && Fold(op.username) != []
    ensures |Unrevoked(Step(l, ss, op), user)| <= l.cap
  {
    hide Fold, Enforced, SortedActive;
    var kept := Enforced(l, ss, op.username, op.now);
    var after := Step(l, ss, op);
    if user == Fold(op.username) {
      EnforcedKeeps(l, ss, op.username, op.now);
      assert Unrevoked(after, user) == Unrevoked(kept, user) + {|ss|};
    } else {
      EnforcedSparesOthers(l, ss, op.username, op.now, user);
      assert Unrevoked(after, user) == Unrevoked(kept, user);
    }
  }

  lemma {:induction false} CapHoldsAlways(l: Limits, ops: seq<Op>)
    requires 0 < l.cap && NamedLogins(ops)
    ensures CapHolds(l, Run(l, ops))
  {
    if ops == [] {
      assert forall user :: Unrevoked([], user) == {};
    } else {
      hide Step, Fold, Unrevoked;
      var init, op := ops[..|ops| - 1], Last(ops);
      assert forall o :: o in init ==> o in ops;
      assert op in ops;
      CapHoldsAlways(l, init);
      var ss := Run(l, init);
      forall user
        ensures |Unrevoked(Step(l, ss, op), user)| <= l.cap
      {
        if op.Login? {
          LoginKeepsCap(l, ss, op, user);
        } else {
          StepFrame(l, ss, op);
          OthersOnlyShrink(l, ss, Step(l, ss, op), op, user);
        }
      }
    }
  }

  lemma OthersOnlyShrink(l: Limits, ss: seq<Session>, after: seq<Session>, op: Op, user: string)
    requires Frame(l, ss, after, op) && !op.Login?
    ensures |Unrevoked(after, user)| <= |Unrevoked(ss, user)|
  {
    SubsetSize(Unrevoked(after, user), Unrevoked(ss, user));
  }

  /** Session `i` was still usable and the login revoked it. */
  predicate Evicts(l: Limits, ss: seq<Session>, op: Op, i: nat)
    requires op.Login?
  {
    i < |ss| && !Expired(l, ss[i], op.now, false) && Enforced(l, ss, op.username, op.now)[i].revoked
  }

  /** The evicted session was the least of a full set, and every other usable one of the user is spared. */
  ghost predicate OldestOfFull(l: Limits, ss: seq<Session>, op: Op, i: nat)
    requires op.Login? && i < |ss|
  {
    var user := Fold(op.username);
    && OfUser(ss[i], user)
    && |Unrevoked(ss, user)| == l.cap
    && (forall j :: 0 <= j < |ss| && j != i && OfUser(ss[j], user) && !Expired(l, ss[j], op.now, false) ==>
          && (Seen(ss[i]) < Seen(ss[j]) || (Seen(ss[i]) == Seen(ss[j]) && ss[i].created <= ss[j].created))
          && !Enforced(l, ss, op.username, op.now)[j].revoked)
  }

  /** Over whole runs, a login evicts at most one session that was still usable; it is the least by
      (last seen, created), and the new session survives. */
  lemma LoginEvictsTheOldest(l: Limits, ops: seq<Op>, op: Op, i: nat)
    requires 0 < l.cap && NamedLogins(ops) && op.Login?
    ensures var ss := Run(l, ops);
            && |Step(l, ss, op)| == |ss| + 1 && Step(l, ss, op)[..|ss|] == Enforced(l, ss, op.username, op.now)
            && !Last(Step(l, ss, op)).revoked
            && (Evicts(l, ss, op, i) ==> OldestOfFull(l, ss, op, i))
  {
    hide Run, Step, Evicts, OldestOfFull;
    CapHoldsAlways(l, ops);
    LoginStep(l, Run(l, ops), op);
    EvictsTheOldest(l, Run(l, ops), op, i);
  }

  lemma EvictsTheOldest(l: Limits, ss: seq<Session>, op: Op, i: nat)
    requires 0 < l.cap && CapHolds(l, ss) && op.Login?
    ensures Evicts(l, ss, op, i) ==> OldestOfFull(l, ss, op, i)
  {
    hide Fold, SortedActive, Expired;
    if !Evicts(l, ss, op, i) {
      return;
    }
    var user := Fold(op.username);
    var active := SortedActive(l, ss, user, op.now);
    RevokedIsExpired(l, ss[i], op.now);
    assert user != [];
    SortedActiveProperties(l, ss, user, op.now);
    assert forall x :: x in active ==> !ss[x].revoked by {
      forall x | x in active ensures !ss[x].revoked { RevokedIsExpired(l, ss[x], op.now); }
    }
    DistinctSize(active);
    assert Elements(active) <= Unrevoked(ss, user);
    SubsetSize(Elements(active), Unrevoked(ss, user));
    assert i in Evicted(l, ss, user, op.now);
    assert active[0] == i;
    forall j | 0 <= j < |ss| && j != i && OfUser(ss[j], user) && !Expired(l, ss[j], op.now, false)
      ensures NotNewer(ss, i, j) && !Enforced(l, ss, op.username, op.now)[j].revoked
    {
      RevokedIsExpired(l, ss[j], op.now);
      assert j in active;
    }
  }

  lemma LoginStep(l: Limits, ss: seq<Session>, op: Op)
    requires op.Login?
    ensures |Step(l, ss, op)| == |ss| + 1 && !Last(Step(l, ss, op)).revoked
    ensures Step(l, ss, op)[..|ss|] == Enforced(l, ss, op.username, op.now)
  {
    hide Enforced;
  }
}
