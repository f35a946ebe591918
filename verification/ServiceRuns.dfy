/** Accounts and sessions together: how long a session outlives its user's account. */
module ServiceRuns {
  import opened Prelude
  import opened Text
  import opened SessionSpec
  import opened AccountSpec
  import Sessions = SessionRuns
  import AccountRuns

  /** A user whose sessions may be continued. */
  function MayContinue(users: seq<User>): string -> bool {
    name => FindUser(users, name).Some? && FindUser(users, name).value.enabled
  }

  datatype Service = Service(accounts: Accounts, sessions: seq<Session>)

  /** An operation on the sessions or on the accounts. A refresh asks the stored users, whatever `users` the
      operation carries. */
  datatype Op = OnSessions(op: Sessions.Op) | OnAccounts(change: AccountRuns.Op)

  function Asked(users: seq<User>, op: Sessions.Op): Sessions.Op {
    if op.Refresh? then op.(users := MayContinue(users)) else op
  }

  function Step(l: Limits, st: Service, op: Op): Service {
    match op
    case OnSessions(o) => st.(sessions := Sessions.Step(l, st.sessions, Asked(st.accounts.users, o)))
    case OnAccounts(c) => st.(accounts := AccountRuns.Step(st.accounts, c))
  }

  predicate Accepts(l: Limits, st: Service, op: Sessions.Op) {
    Sessions.Accepts(l, st.sessions, Asked(st.accounts.users, op))
  }

  function Run(l: Limits, start: Service, ops: seq<Op>): Service {
    if ops == [] then start else Step(l, Run(l, start, ops[..|ops| - 1]), Last(ops))
  }

  lemma RunStep(l: Limits, start: Service, ops: seq<Op>, i: nat)
    requires i < |ops|
    ensures Run(l, start, ops[..i + 1]) == Step(l, Run(l, start, ops[..i]), ops[i])
  {
    assert ops[..i + 1][..i] == ops[..i];
  }

  // ----- what the sessions see of a run -----

  /** The session operations of a run, each refresh with the users of its moment. */
  function SessionOps(l: Limits, a: Accounts, ops: seq<Op>): seq<Sessions.Op> {
    if ops == [] then []
    else
      var init := ops[..|ops| - 1];
      match Last(ops)
      case OnSessions(o) => SessionOps(l, a, init) + [Asked(Run(l, Service(a, []), init).accounts.users, o)]
      case OnAccounts(_) => SessionOps(l, a, init)
  }

  lemma {:induction false} SessionsOfRun(l: Limits, a: Accounts, ops: seq<Op>)
    ensures Run(l, Service(a, []), ops).sessions == Sessions.Run(l, SessionOps(l, a, ops))
  {
    if ops != [] {
      hide Sessions.Step, AccountRuns.Step, Asked;
      var init := ops[..|ops| - 1];
      SessionsOfRun(l, a, init);
      if Last(ops).OnSessions? {
        var all := SessionOps(l, a, ops);
        assert all[..|all| - 1] == SessionOps(l, a, init);
      }
    }
  }

  /** The account operations of a run. */
  function AccountOps(ops: seq<Op>): seq<AccountRuns.Op> {
    if ops == [] then []
    else AccountOps(ops[..|ops| - 1]) + (if Last(ops).OnAccounts? then [Last(ops).change] else [])
  }

  /** The accounts never see the sessions. */
  lemma {:induction false} AccountsOfRun(l: Limits, start: Service, ops: seq<Op>)
    ensures Run(l, start, ops).accounts == AccountRuns.Run(start.accounts, AccountOps(ops))
  {
    if ops != [] {
      hide Sessions.Step, AccountRuns.Step, Asked;
      AccountsOfRun(l, start, ops[..|ops| - 1]);
      var before := AccountOps(ops[..|ops| - 1]);
      if Last(ops).OnAccounts? {
        assert (before + [Last(ops).change])[..|before|] == before;
      } else {
        assert before + [] == before;
      }
    }
  }

  /** The first `i` operations contribute a prefix, and a session operation at `i` comes right after it. */
  lemma {:induction false} SessionOpsPrefix(l: Limits, a: Accounts, ops: seq<Op>, i: nat)
    requires i <= |ops|
    ensures SessionOps(l, a, ops[..i]) <= SessionOps(l, a, ops)
    ensures i < |ops| && ops[i].OnSessions? ==>
              var n := |SessionOps(l, a, ops[..i])|;
              && n < |SessionOps(l, a, ops)|
              && SessionOps(l, a, ops)[n] == Asked(Run(l, Service(a, []), ops[..i]).accounts.users, ops[i].op)
    decreases |ops|
  {
    hide Run, Asked;
    if i == |ops| {
      assert ops[..i] == ops;
    } else {
      var init := ops[..|ops| - 1];
      SessionOpsPrefix(l, a, init, i);
      assert init[..i] == ops[..i];
      if i == |ops| - 1 {
        assert ops[..i] == init;
      }
    }
  }

  lemma SessionsAt(l: Limits, a: Accounts, ops: seq<Op>, i: nat)
    requires i <= |ops|
    ensures var all := SessionOps(l, a, ops);
            var n := |SessionOps(l, a, ops[..i])|;
            n <= |all| && Run(l, Service(a, []), ops[..i]).sessions == Sessions.Run(l, all[..n])
  {
    hide Run, SessionOps, Sessions.Run;
    SessionOpsPrefix(l, a, ops, i);
    SessionsOfRun(l, a, ops[..i]);
    var part, all := SessionOps(l, a, ops[..i]), SessionOps(l, a, ops);
    assert all[..|part|] == part;
  }

  // ----- a user who is gone -----

  /** The account of that name is missing or disabled. */
  predicate Gone(a: Accounts, name: string) {
    !MayContinue(a.users)(name)
  }

  /** The operation may bring the account of that name back. */
  predicate Restores(change: AccountRuns.Op, name: string) {
    match change
    case Create(username, _, _, _, _, _, _) => Fold(username) == Fold(name)
    case Update(username, _, _) => Fold(username) == Fold(name)
    case Bootstrap(username, _, _, _) => Fold(username) == Fold(name)
    case Complete(username, _, _, _, _, _) => Fold(username) == Fold(name)
    case _ => false
  }

  lemma DeletedIsGone(a: Accounts, name: string)
    ensures Gone(DeleteUser(a, name), name)
  {
    hide Fold;
    if Strip(name) != [] {
      AccountRuns.DeletedUserIsGone(a, name);
    } else {
      assert Fold(name) == [] by { BlankFold(name); }
    }
  }

  lemma BlankFold(name: string)
    requires Strip(name) == []
    ensures Fold(name) == []
  {
  }

  lemma DisabledIsGone(a: Accounts, name: string, changes: Changes, hash: string)
    requires changes.enabled == Some(false)
    ensures UpdateUser(a, name, changes, hash).error.None? ==> Gone(UpdateUser(a, name, changes, hash).state, name)
  {
    hide UpdateUser, Fold;
    var out := UpdateUser(a, name, changes, hash);
    if out.error.None? {
      UpdateInPlace(a, name, changes, hash);
      SameIndex(a.users, out.state.users, name);
    }
  }

  lemma UpdateInPlace(a: Accounts, name: string, changes: Changes, hash: string)
    requires UpdateUser(a, name, changes, hash).error.None?
    ensures var i, vs := UserIndex(a.users, Strip(name)), UpdateUser(a, name, changes, hash).state.users;
            && i < |a.users| == |vs| && vs[i].username == a.users[i].username
            && vs[i].enabled == changes.enabled.GetOr(a.users[i].enabled)
            && forall j :: 0 <= j < |vs| && j != i ==> vs[j] == a.users[j]
  {
    hide LoadRoles, HasRole, CleanTenant, CheckPassword, CheckRoleName, Fold, UserIndex, Strip;
  }

  /** Lists with the same names have the same places. */
  lemma {:induction false} SameIndex(us: seq<User>, vs: seq<User>, name: string)
    requires |us| == |vs| && forall i :: 0 <= i < |us| ==> vs[i].username == us[i].username
    ensures UserIndex(vs, name) == UserIndex(us, name)
    ensures UserIndex(us, name) == UserIndex(us, Strip(name))
  {
    hide Fold;
    FoldIdempotent(name);
  }

  lemma AppendedElsewhere(us: seq<User>, u: User, name: string)
    requires Fold(u.username) != Fold(name)
    ensures FindUser(us + [u], name) == FindUser(us, name)
  {
    hide Fold;
    IndexIs(us + [u], name, if UserIndex(us, name) == |us| then |us| + 1 else UserIndex(us, name));
  }

  lemma IndexIs(us: seq<User>, name: string, i: nat)
    requires i <= |us|
    requires forall j :: 0 <= j < i ==> Fold(us[j].username) != Fold(name)
    requires i < |us| ==> Fold(us[i].username) == Fold(name)
    ensures UserIndex(us, name) == i
  {
  }

  lemma ChangedElsewhere(us: seq<User>, i: nat, u: User, name: string)
    requires i < |us| && u.username == us[i].username && Fold(u.username) != Fold(name)
    ensures FindUser(us[i := u], name) == FindUser(us, name)
  {
    hide Fold;
    SameIndex(us, us[i := u], name);
  }

  /** Taking users out brings nobody back, when names are unique. */
  lemma {:induction false} GoneAfterFilter(us: seq<User>, keep: User -> bool, name: string)
    requires UniqueNames(us) && !MayContinue(us)(name)
    ensures !MayContinue(Filter(us, keep))(name)
  {
    hide Fold;
    FilterMembers(us, keep);
    var kept := Filter(us, keep);
    var i := UserIndex(kept, name);
    if Fold(name) != [] && i < |kept| {
      assert kept[i] in kept && kept[i] in us;
      var j :| 0 <= j < |us| && us[j] == kept[i];
      IndexIs(us, name, j);
    }
  }

  lemma SameEnabled(us: seq<User>, vs: seq<User>, name: string)
    requires |us| == |vs| && forall i :: 0 <= i < |us| ==> vs[i].username == us[i].username && vs[i].enabled == us[i].enabled
    ensures MayContinue(us)(name) == MayContinue(vs)(name)
  {
    hide Fold;
    SameIndex(us, vs, name);
  }

  /** Reading the onboarding status only takes users out, completing it may add or change one of another name. */
  lemma GoneAfterStatus(a: Accounts, name: string, bootstrapName: string, disabled: bool, now: int)
    requires UniqueNames(a.users) && Gone(a, name)
    ensures Gone(OnboardingStatus(a, bootstrapName, disabled, now).0, name)
  {
    hide Fold, LeastName, MayContinue;
    GoneAfterFilter(a.users, (u: User) => !u.bootstrapOnly, name);
  }

  lemma GoneAfterEdit(a: Accounts, change: AccountRuns.Op, name: string)
    requires change.Create? || change.Update?
    requires Gone(a, name) && !Restores(change, name)
    ensures Gone(AccountRuns.Step(a, change), name)
  {
    hide Fold, LoadRoles, HasRole, CheckPassword, CheckRoleName, CleanTenant, FindUser;
    var b := AccountRuns.Step(a, change);
    FoldIdempotent(change.username);
    if b.users != a.users {
      if change.Create? {
        AppendedElsewhere(a.users, Last(b.users), name);
      } else {
        var i := UserIndex(a.users, CheckUsername(change.username).value);
        ChangedElsewhere(a.users, i, b.users[i], name);
      }
    }
  }

  lemma GoneAfterComplete(a: Accounts, username: string, password: string, hash: string,
                          bootstrapName: string, disabled: bool, now: int, name: string)
    requires Integrity(a) && Gone(a, name) && Fold(username) != Fold(name)
    ensures Gone(CompleteOnboarding(a, username, password, hash, bootstrapName, disabled, now).state, name)
  {
    hide OnboardingStatus, CreateUser, UpdateUser, Fold, MayContinue, Integrity, CheckPassword;
    assert UniqueNames(a.users) by { NamesOf(a); }
    GoneAfterStatus(a, name, bootstrapName, disabled, now);
    AccountRuns.StatusKeeps(a, bootstrapName, disabled, now);
    var (b, status) := OnboardingStatus(a, bootstrapName, disabled, now);
    if CheckUsername(username).Ok? && CheckPassword(password).None? && status.pending {
      var plain := CheckUsername(username).value;
      FoldIdempotent(username);
      var create := AccountRuns.Create(plain, password, hash, "superadmin", true, None, now);
      var update := AccountRuns.Update(plain, Changes(Some("superadmin"), Some(true), Some(password), None), hash);
      var op := if UserIndex(b.users, plain) == |b.users| then create else update;
      GoneAfterEdit(b, op, name);
      AccountRuns.StepKeeps(b, op);
      var c := AccountRuns.Step(b, op);
      NamesOf(c);
      GoneAfterStatus(c.(onboarding := Onboarding(true, now, plain)), name, bootstrapName, disabled, now);
    }
  }

  lemma NamesOf(a: Accounts)
    ensures Integrity(a) ==> UniqueNames(a.users)
  {
  }

  /** Nobody comes back except by an operation on that very name. */
  lemma GoneStays(a: Accounts, change: AccountRuns.Op, name: string)
    requires Integrity(a) && Gone(a, name) && !Restores(change, name)
    ensures Gone(AccountRuns.Step(a, change), name)
  {
    hide CreateUser, UpdateUser, OnboardingStatus, CompleteOnboarding, LoadRoles, Fold, MayContinue, Integrity, HasRole,
         BuiltIn, CheckRoleName, CheckPassword;
    NamesOf(a);
    match change {
      case Create(_, _, _, _, _, _, _) => GoneAfterEdit(a, change, name);
      case Update(_, _, _) => GoneAfterEdit(a, change, name);
      case Delete(username) => GoneAfterFilter(a.users, (u: User) => Fold(u.username) != Fold(username), name);
      case PutRole(_, _) =>
      case DropRole(_) => SameEnabled(a.users, AccountRuns.Step(a, change).users, name);
      case Bootstrap(username, _, _, _) =>
        var b := AccountRuns.Step(a, change);
        FoldIdempotent(username);
        if b.users != a.users { BootstrapElsewhere(a.users, Last(b.users), name); }
      case CheckStatus(bootstrapName, disabled, now) => GoneAfterStatus(a, name, bootstrapName, disabled, now);
      case Complete(username, password, hash, bootstrapName, disabled, now) =>
        GoneAfterComplete(a, username, password, hash, bootstrapName, disabled, now, name);
    }
  }

  lemma BootstrapElsewhere(us: seq<User>, u: User, name: string)
    requires Fold(u.username) != Fold(name)
    ensures MayContinue(us + [u])(name) == MayContinue(us)(name)
  {
    hide Fold, FindUser;
    AppendedElsewhere(us, u, name);
  }

  /** Through a run: integrity, and the account staying gone. */
  lemma {:induction false} GoneThroughout(l: Limits, start: Service, ops: seq<Op>, i: nat, j: nat, name: string)
    requires Integrity(start.accounts) && i <= j <= |ops|
    requires forall q :: i <= q < j && ops[q].OnAccounts? ==> !Restores(ops[q].change, name)
    ensures Integrity(Run(l, start, ops[..j]).accounts)
    ensures Gone(Run(l, start, ops[..i]).accounts, name) ==> Gone(Run(l, start, ops[..j]).accounts, name)
    decreases j
  {
    hide Integrity, AccountRuns.Step, Gone, Restores;
    if j > 0 {
      GoneThroughout(l, start, ops, if i < j then i else j - 1, j - 1, name);
      RunStep(l, start, ops, j - 1);
      if ops[j - 1].OnAccounts? {
        var before := Run(l, start, ops[..j - 1]).accounts;
        AccountRuns.StepKeeps(before, ops[j - 1].change);
        if i < j && Gone(before, name) { GoneStays(before, ops[j - 1].change, name); }
      }
    }
  }

  // ----- dead sessions stay dead whatever happens to the accounts -----

  /** A session revoked at some point of a run is never accepted later, through either token, even when its
      user is created or enabled again. */
  lemma RevokedForGood(l: Limits, a: Accounts, ops: seq<Op>, i: nat, k: nat, m: nat)
    requires Sessions.Fresh(SessionOps(l, a, ops)) && i <= m < |ops| && ops[m].OnSessions?
    ensures var ss, op := Run(l, Service(a, []), ops[..i]).sessions, ops[m].op;
            k < |ss| && ss[k].revoked ==>
              && (op.Resolve? && Strip(op.token) == ss[k].access ==> !Accepts(l, Run(l, Service(a, []), ops[..m]), op))
              && (op.Refresh? && Strip(op.token) == ss[k].refresh ==> !Accepts(l, Run(l, Service(a, []), ops[..m]), op))
  {
    hide Run, SessionOps, Sessions.Run, Sessions.Accepts, Sessions.Fresh;
    var all := SessionOps(l, a, ops);
    var n, p := |SessionOps(l, a, ops[..i])|, |SessionOps(l, a, ops[..m])|;
    SessionsAt(l, a, ops, i);
    SessionsAt(l, a, ops, m);
    SessionOpsPrefix(l, a, ops, m);
    SessionOpsPrefix(l, a, ops[..m], i);
    assert ops[..m][..i] == ops[..i];
    Sessions.RevokedSessionNeverReturns(l, all, n, k, p);
  }

  /** While the account of a session's user is gone, no refresh of the session succeeds, and the first attempt
      revokes it. */
  lemma RefusedWhileGone(l: Limits, a: Accounts, ops: seq<Op>, i: nat, j: nat, k: nat, token: string, now: int,
                         users: string -> bool, access: string)
    requires i <= j <= |ops| && Integrity(a) && Sessions.Fresh(SessionOps(l, a, ops[..j]))
    requires k < |Run(l, Service(a, []), ops[..j]).sessions|
    ensures var st := Run(l, Service(a, []), ops[..j]);
            var s := st.sessions[k];
            var op := Sessions.Refresh(token, now, users, access);
            && Gone(Run(l, Service(a, []), ops[..i]).accounts, Strip(s.username))
            && (forall q :: i <= q < j && ops[q].OnAccounts? ==> !Restores(ops[q].change, Strip(s.username)))
            && Strip(token) == s.refresh != [] ==>
              && !Accepts(l, st, op)
              && Step(l, st, OnSessions(op)).sessions == if s.revoked then st.sessions else st.sessions[k := Revoke(s)]
  {
    hide Run, SessionOps, Sessions.Run, Sessions.Fresh, Sessions.Accepts, Sessions.Step, Gone, Restores, Integrity,
         Strip, Expired, Sessions.RefreshIndex;
    var start := Service(a, []);
    var st := Run(l, start, ops[..j]);
    var s := st.sessions[k];
    SessionsOfRun(l, a, ops[..j]);
    if Gone(Run(l, start, ops[..i]).accounts, Strip(s.username))
       && (forall q :: i <= q < j && ops[q].OnAccounts? ==> !Restores(ops[q].change, Strip(s.username)))
       && Strip(token) == s.refresh != [] {
      GoneThroughout(l, start, ops, i, j, Strip(s.username));
      Sessions.RefreshIsLookup(l, SessionOps(l, a, ops[..j]), token, now, MayContinue(st.accounts.users), access);
      IndexOfRefresh(st.sessions, k);
      NotContinued(st.accounts, Strip(s.username));
    }
  }

  lemma NotContinued(a: Accounts, name: string)
    requires Gone(a, name)
    ensures !MayContinue(a.users)(name)
  {
  }

  lemma IndexOfRefresh(ss: seq<Session>, k: nat)
    requires Sessions.UniqueTokens(ss) && k < |ss|
    ensures ss[k].refresh in Sessions.RefreshIndex(ss) && Sessions.RefreshIndex(ss)[ss[k].refresh] == k
  {
  }

  // ----- polling keeps a session alive whatever happens to the account -----

  /** When the session was last seen, after polls of its access token. */
  function LastPoll(ops: seq<Op>, access: string, seen: int): int {
    if ops == [] then seen
    else match Last(ops)
    case OnSessions(Resolve(token, now)) =>
      if Strip(token) == access then now else LastPoll(ops[..|ops| - 1], access, seen)
    case _ => LastPoll(ops[..|ops| - 1], access, seen)
  }

  /** The latest clock reading at which a session last seen at `seen` still resolves. */
  function Deadline(l: Limits, created: int, seen: int): int {
    Min(seen + Min(l.idle, l.accessTtl), created + l.refreshTtl)
  }

  /** Any operations on accounts, and resolutions of which those of `access` come in time. */
  predicate Polled(l: Limits, ops: seq<Op>, access: string, created: int, seen: int) {
    ops == [] ||
    (var init := ops[..|ops| - 1];
     && Polled(l, init, access, created, seen)
     && match Last(ops)
        case OnAccounts(_) => true
        case OnSessions(Resolve(token, now)) =>
          Strip(token) == access ==> 0 < now <= Deadline(l, created, LastPoll(init, access, seen))
        case _ => false)
  }

  /** A record as polling leaves it. */
  function AsSeen(l: Limits, s: Session, seen: int): Session {
    s.(lastSeen := seen, accessExpires := seen + l.accessTtl)
  }

  lemma ResolveStep(l: Limits, ss: seq<Session>, k: nat, token: string, now: int)
    requires Sane(l) && Sessions.UniqueTokens(ss) && k < |ss| && !ss[k].revoked && Sessions.Clocks(l, ss[k]) && ss[k].access != []
    requires Strip(token) == ss[k].access ==> 0 < now <= Deadline(l, ss[k].created, ss[k].lastSeen)
    ensures var after := Sessions.Step(l, ss, Sessions.Resolve(token, now));
            && Sessions.UniqueTokens(after) && k < |after|
            && after[k] == if Strip(token) == ss[k].access then AsSeen(l, ss[k], now) else ss[k]
    ensures Strip(token) == ss[k].access ==> Sessions.Accepts(l, ss, Sessions.Resolve(token, now))
  {
    hide Strip, Expired, Sessions.AccessIndex, ResolveHit, Resolved;
    var t := Strip(token);
    Sessions.WindowOf(l, ss[k], now);
    IndexOfAccess(ss, k);
    if t != [] {
      Sessions.LookupFindsHit(l, ss, t, now);
      Sessions.ResolvedByLookup(l, ss, t, now);
    }
  }

  lemma IndexOfAccess(ss: seq<Session>, k: nat)
    requires Sessions.UniqueTokens(ss) && k < |ss|
    ensures ss[k].access in Sessions.AccessIndex(ss) && Sessions.AccessIndex(ss)[ss[k].access] == k
  {
  }

  /** From any state of a session: polled in time it stays alive, in the role of its login, whatever is done
      to the accounts; and it resolves exactly until its deadline. */
  lemma {:induction false} PollingOutlivesAccount(l: Limits, start: Service, ops: seq<Op>, k: nat)
    requires Sane(l) && Sessions.UniqueTokens(start.sessions) && k < |start.sessions|
    requires var s := start.sessions[k];
             !s.revoked && Sessions.Clocks(l, s) && s.access != [] && Polled(l, ops, s.access, s.created, s.lastSeen)
    ensures var s := start.sessions[k];
            var ss := Run(l, start, ops).sessions;
            var seen := LastPoll(ops, s.access, s.lastSeen);
            && Sessions.UniqueTokens(ss) && k < |ss| && ss[k] == AsSeen(l, s, seen) && Sessions.Clocks(l, ss[k])
            && forall token, now :: Strip(token) == s.access ==>
                 (Accepts(l, Run(l, start, ops), Sessions.Resolve(token, now)) <==> now <= Deadline(l, s.created, seen))
  {
    hide AccountRuns.Step, Sessions.Step, Sessions.Accepts, Sessions.UniqueTokens, Strip;
    var s := start.sessions[k];
    if ops != [] {
      var init := ops[..|ops| - 1];
      PollingOutlivesAccount(l, start, init, k);
      if Last(ops).OnSessions? {
        var ss := Run(l, start, init).sessions;
        ResolveStep(l, ss, k, Last(ops).op.token, Last(ops).op.now);
      }
    }
    var end := Run(l, start, ops);
    forall token, now | Strip(token) == s.access
      ensures Accepts(l, end, Sessions.Resolve(token, now)) <==> now <= Deadline(l, s.created, LastPoll(ops, s.access, s.lastSeen))
    {
      ResolvesUntil(l, end.sessions, k, token, now);
    }
  }

  lemma ResolvesUntil(l: Limits, ss: seq<Session>, k: nat, token: string, now: int)
    requires Sane(l) && Sessions.UniqueTokens(ss) && k < |ss| && !ss[k].revoked && Sessions.Clocks(l, ss[k]) && ss[k].access != []
    requires Strip(token) == ss[k].access
    ensures Sessions.Accepts(l, ss, Sessions.Resolve(token, now)) <==> now <= Deadline(l, ss[k].created, ss[k].lastSeen)
  {
    hide Strip, Expired, Sessions.AccessIndex, ResolveHit;
    Sessions.WindowOf(l, ss[k], now);
    IndexOfAccess(ss, k);
    Sessions.LookupFindsHit(l, ss, Strip(token), now);
  }

  /** The premises hold in every reachable state. */
  lemma ReachableSessions(l: Limits, a: Accounts, ops: seq<Op>)
    requires Sessions.Fresh(SessionOps(l, a, ops)) && Sessions.PositiveClock(SessionOps(l, a, ops))
    ensures var ss := Run(l, Service(a, []), ops).sessions;
            Sessions.UniqueTokens(ss) && forall k :: 0 <= k < |ss| ==> Sessions.Clocks(l, ss[k])
  {
    hide Sessions.UniqueTokens, Sessions.Clocks, Sessions.Run, Sessions.Fresh, SessionOps, Run, Sessions.TokensFrom;
    var all := SessionOps(l, a, ops);
    SessionsOfRun(l, a, ops);
    assert all[..|all|] == all;
    Sessions.TokensAreUnique(l, all, |all|);
    Sessions.ClocksInEveryState(l, all);
  }
}
