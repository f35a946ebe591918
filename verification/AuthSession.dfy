/** The service object: four stored documents, changed in place by the public operations. Clock
    readings, generated tokens and password hashes are arguments; each operation's effect on the
    documents is the one SessionRuns and AccountRuns reason about. */
module AuthSession {
  import opened Prelude
  import opened Text
  import opened SessionSpec
  import opened AccountSpec
  import opened ServiceRuns
  import Sessions = SessionRuns
  import AccountRuns

  datatype Identity = Identity(username: string, role: string, sessionId: string, tenant: Option<string>)

  /** What a successful refresh hands back. */
  datatype Continued = Continued(access: string, refresh: string, username: string, role: string)

  datatype LoginResult = Denied | BadCode | Issued(access: string, refresh: string, role: string)

  function OrViewer(role: string): string {
    if Strip(role) == [] then "viewer" else Strip(role)
  }

  /** The role a continued session is told: the user's own of that moment, else the one of its login. */
  function RoleNow(users: seq<User>, s: Session): string {
    var user := FindUser(users, Strip(s.username));
    OrViewer(if user.Some? && user.value.role != [] then user.value.role else s.role)
  }

  function TenantNow(users: seq<User>, username: string): Option<string> {
    var user := FindUser(users, username);
    if user.None? then None else CleanTenant(user.value.tenant)
  }

  /** What `login` checks before any one-time code. */
  predicate PasswordAccepted(users: seq<User>, username: string, verify: string -> bool) {
    var user := FindUser(users, Strip(username));
    && UsernameOk(Strip(username)) && user.Some? && user.value.enabled
    && Fold(user.value.authSource) != "ldap" && verify(user.value.passwordHash)
  }

  predicate NeedsCode(u: User) {
    u.totp.Some? && Strip(u.totp.value) != []
  }

  class AuthSessionService {
    const limits: Limits
    var users: seq<User>
    var roles: seq<Role>
    var onboarding: Onboarding
    var sessions: seq<Session>

    ghost function Documents(): Accounts
      reads this
    {
      Accounts(users, roles, onboarding)
    }

    /** The documents are what the operation makes of `before`, and integrity is kept. */
    ghost predicate FollowsRun(before: Accounts, op: AccountRuns.Op)
      reads this
    {
      Documents() == AccountRuns.Step(before, op) && (Integrity(before) ==> Integrity(Documents()))
    }

    constructor (accessTtl: int, refreshTtl: int, idle: int, absolute: int, cap: int,
                 storedRoles: seq<Role>, storedOnboarding: Onboarding)
      ensures limits == MakeLimits(accessTtl, refreshTtl, idle, absolute, cap) && Sane(limits)
      ensures sessions == [] && Documents() == Accounts([], storedRoles, storedOnboarding)
      ensures Integrity(Documents())
    {
      limits := MakeLimits(accessTtl, refreshTtl, idle, absolute, cap);
      users, roles, onboarding, sessions := [], storedRoles, storedOnboarding, [];
    }

    // ----- sessions -----

    method EnforceSessionLimit(doc: seq<Session>, username: string, now: int) returns (r: seq<Session>)
      ensures r == Enforced(limits, doc, username, now)
    {
      hide Expired, Fold, ActiveFrom, SortByAge;
      r := doc;
      var user := Fold(username);
      if limits.cap <= 0 || user == [] {
        return;
      }
      var active: seq<nat> := [];
      var i := 0;
      while i < |r|
        invariant 0 <= i <= |r| == |doc|
        invariant Positions(doc, active)
        invariant active + ActiveFrom(limits, doc, user, now, i) == ActiveFrom(limits, doc, user, now, 0)
        invariant forall j :: 0 <= j < i ==>
                    r[j] == if OfUser(doc[j], user) && Expired(limits, doc[j], now, false) then Revoke(doc[j]) else doc[j]
        invariant forall j :: i <= j < |doc| ==> r[j] == doc[j]
      {
        ActiveFromStep(limits, doc, user, now, i);
        if Fold(r[i].username) == user {
          if Expired(limits, r[i], now, false) {
            r := r[i := Revoke(r[i])];
          } else {
            active := active + [i];
          }
        }
        i := i + 1;
      }
      ActiveFromEnd(limits, doc, user, now);
      assert active + [] == active;
      active := SortByAge(doc, active);
      assert active == SortedActive(limits, doc, user, now);
      r := PopOldest(doc, r, active, user, now);
    }

    method PopOldest(doc: seq<Session>, marked: seq<Session>, sorted: seq<nat>, user: string, now: int)
      returns (r: seq<Session>)
      requires 0 < limits.cap && sorted == SortedActive(limits, doc, user, now) && |marked| == |doc|
      requires forall i :: 0 <= i < |doc| ==>
                 marked[i] == if OfUser(doc[i], user) && Expired(limits, doc[i], now, false) then Revoke(doc[i]) else doc[i]
      ensures |r| == |doc|
      ensures forall i :: 0 <= i < |doc| ==>
                r[i] == if OfUser(doc[i], user) && (Expired(limits, doc[i], now, false) || i in Evicted(limits, doc, user, now))
                        then Revoke(doc[i]) else doc[i]
    {
      hide Expired, Fold, SortedActive;
      r := marked;
      SortedActiveProperties(limits, doc, user, now);
      var active := sorted;
      while |active| >= limits.cap
        invariant |active| <= |sorted| && active == sorted[|sorted| - |active|..]
        invariant |sorted| - |active| <= Excess(limits, |sorted|) && |r| == |doc|
        invariant forall i :: 0 <= i < |doc| ==>
                    r[i] == if i in sorted[..|sorted| - |active|] then Revoke(doc[i]) else marked[i]
      {
        var popped := |sorted| - |active|;
        var oldest := active[0];
        assert oldest == sorted[popped] && oldest in sorted;
        assert sorted[..popped + 1] == sorted[..popped] + [oldest];
        r := r[oldest := Revoke(r[oldest])];
        active := active[1..];
      }
      assert sorted[..|sorted| - |active|] == Evicted(limits, doc, user, now);
      assert forall i :: i in Evicted(limits, doc, user, now) ==> i in sorted;
    }

    method IssueSession(username: string, role: string, tenant: Option<string>, remoteAddr: string, userAgent: string,
                        now: int, access: string, refresh: string, id: string)
      modifies this`sessions
      ensures sessions == Sessions.Step(limits, old(sessions),
                            Sessions.Login(username, role, tenant, id, access, refresh, remoteAddr, userAgent, now))
    {
      var payload := NewSession(limits, id, username, role, tenant, access, refresh, remoteAddr, userAgent, now);
      var doc := EnforceSessionLimit(sessions, username, now);
      sessions := doc + [payload];
    }

    /** `verify` stands for the stored hash's password check, `codeOk` for the one-time code check. */
    method Login(username: string, verify: string -> bool, codeOk: string -> bool, remoteAddr: string, userAgent: string,
                 now: int, access: string, refresh: string, id: string) returns (r: LoginResult)
      modifies this`sessions
      ensures r.Denied? <==> !PasswordAccepted(users, username, verify)
      ensures r.Issued? ==>
                var u := FindUser(users, Strip(username)).value;
                && r == Issued(access, refresh, OrViewer(u.role))
                && (NeedsCode(u) ==> codeOk(u.totp.value))
                && sessions == Sessions.Step(limits, old(sessions),
                     Sessions.Login(Strip(u.username), OrViewer(u.role), CleanTenant(u.tenant), id, access, refresh,
                                    remoteAddr, userAgent, now))
                && Fold(Strip(u.username)) != []
      ensures r.BadCode? ==>
                var u := FindUser(users, Strip(username)).value;
                NeedsCode(u) && !codeOk(u.totp.value)
      ensures !r.Issued? ==> sessions == old(sessions)
    {
      var name := Strip(username);
      if !UsernameOk(name) {
        return Denied;
      }
      var found := FindUserRecord(name);
      if found.None? {
        return Denied;
      }
      var user := found.value;
      if !user.enabled || Fold(user.authSource) == "ldap" || !verify(user.passwordHash) {
        return Denied;
      }
      if NeedsCode(user) && !codeOk(user.totp.value) {
        return BadCode;
      }
      FoldIdempotent(user.username);
      IssueSession(Strip(user.username), OrViewer(user.role), CleanTenant(user.tenant), remoteAddr, userAgent,
                   now, access, refresh, id);
      r := Issued(access, refresh, OrViewer(user.role));
    }

    method RefreshSession(refreshToken: string, now: int, access: string) returns (r: Option<Continued>)
      modifies this`sessions
      ensures var op := Sessions.Refresh(refreshToken, now, MayContinue(users), access);
              && sessions == Sessions.Step(limits, old(sessions), op)
              && (r.Some? <==> Sessions.Accepts(limits, old(sessions), op))
              && (r.Some? ==>
                    var s := old(sessions)[RefreshHit(old(sessions), Strip(refreshToken))];
                    r.value == Continued(access, Strip(refreshToken), Strip(s.username), RoleNow(users, s)))
    {
      hide Expired, Fold, Strip, RefreshHit, Refreshed, RefreshAccepts, Sessions.Step, Sessions.Accepts, FindUser;
      RefreshStep(limits, sessions, Sessions.Refresh(refreshToken, now, MayContinue(users), access));
      var token := Strip(refreshToken);
      RefreshMisses(limits, sessions, token, now, MayContinue(users), access);
      if token == [] {
        return None;
      }
      var doc := sessions;
      var i := 0;
      while i < |doc|
        invariant 0 <= i <= |doc| && doc == sessions == old(sessions)
        invariant forall j :: 0 <= j < i ==> doc[j].revoked || doc[j].refresh != token
      {
        if !doc[i].revoked && doc[i].refresh == token {
          RefreshedAt(limits, sessions, token, now, MayContinue(users), access, i);
          if Expired(limits, doc[i], now, false) {
            doc := doc[i := Revoke(doc[i])];
            sessions := doc;
            return None;
          }
          var username := Strip(doc[i].username);
          var user := FindUserRecord(username);
          if user.None? || !user.value.enabled {
            doc := doc[i := Revoke(doc[i])];
            sessions := doc;
            return None;
          }
          var role := OrViewer(if user.value.role != [] then user.value.role else doc[i].role);
          doc := doc[i := doc[i].(access := access)];
          doc := doc[i := doc[i].(lastSeen := now)];
          doc := doc[i := doc[i].(accessExpires := now + limits.accessTtl)];
          sessions := doc;
          return Some(Continued(access, if doc[i].refresh != [] then doc[i].refresh else token, username, role));
        }
        i := i + 1;
      }
      r := None;
    }

    method ResolveAccessToken(accessToken: string, now: int) returns (r: Option<Identity>)
      modifies this`sessions
      ensures var op := Sessions.Resolve(accessToken, now);
              && sessions == Sessions.Step(limits, old(sessions), op)
              && (r.Some? <==> Sessions.Accepts(limits, old(sessions), op))
              && (r.Some? ==>
                    var s := old(sessions)[ResolveHit(limits, old(sessions), Strip(accessToken), now)];
                    r.value == Identity(Strip(s.username), OrViewer(s.role), Strip(s.id), TenantNow(users, Strip(s.username))))
    {
      hide Expired, Fold;
      var token := Strip(accessToken);
      if token == [] {
        return None;
      }
      var doc := sessions;
      var dirty := false;
      var i := 0;
      while i < |doc|
        invariant 0 <= i <= |doc| == |sessions| && sessions == old(sessions)
        invariant forall j :: 0 <= j < i ==>
                    !(MatchesAccess(sessions[j], token) && !Expired(limits, sessions[j], now, true))
        invariant forall j :: 0 <= j < i ==>
                    doc[j] == if MatchesAccess(sessions[j], token) then Revoke(sessions[j]) else sessions[j]
        invariant forall j :: i <= j < |doc| ==> doc[j] == sessions[j]
        invariant !dirty ==> doc == sessions
      {
        if MatchesAccess(doc[i], token) {
          if Expired(limits, doc[i], now, true) {
            doc := doc[i := Revoke(doc[i])];
            dirty := true;
          } else {
            assert ResolveHit(limits, sessions, token, now) == i;
            ghost var before := sessions;
            doc := doc[i := Touch(limits, doc[i], now)];
            assert doc == Resolved(limits, before, token, now);
            sessions := doc;
            var username := Strip(doc[i].username);
            var user := FindUserRecord(username);
            var tenant := if user.None? then None else CleanTenant(user.value.tenant);
            return Some(Identity(username, OrViewer(doc[i].role), Strip(doc[i].id), tenant));
          }
        }
        i := i + 1;
      }
      assert ResolveHit(limits, sessions, token, now) == |sessions|;
      assert doc == Resolved(limits, sessions, token, now);
      if dirty {
        sessions := doc;
      }
      r := None;
    }

    method RevokeByToken(accessToken: string, refreshToken: string) returns (changed: bool)
      modifies this`sessions
      ensures sessions == Sessions.Step(limits, old(sessions), Sessions.Logout(accessToken, refreshToken))
      ensures changed <==>
                (exists k :: 0 <= k < |old(sessions)| && RevokeTargets(old(sessions)[k], Strip(accessToken), Strip(refreshToken)))
    {
      hide Fold, Strip;
      var at, rt := Strip(accessToken), Strip(refreshToken);
      changed := false;
      if at == [] && rt == [] {
        assert sessions == RevokeWhere(sessions, s => RevokeTargets(s, at, rt));
        return;
      }
      var doc := sessions;
      var i := 0;
      while i < |doc|
        invariant 0 <= i <= |doc| == |sessions| && sessions == old(sessions)
        invariant forall j :: 0 <= j < i ==>
                    doc[j] == if RevokeTargets(sessions[j], at, rt) then Revoke(sessions[j]) else sessions[j]
        invariant forall j :: i <= j < |doc| ==> doc[j] == sessions[j]
        invariant changed <==> exists j :: 0 <= j < i && RevokeTargets(sessions[j], at, rt)
      {
        ghost var s := doc[i];
        if !doc[i].revoked {
          if at != [] && doc[i].access == at {
            doc := doc[i := Revoke(doc[i])];
            changed := true;
          }
          if rt != [] && doc[i].refresh == rt {
            doc := doc[i := Revoke(doc[i])];
            changed := true;
          }
        }
        i := i + 1;
      }
      assert doc == RevokeWhere(sessions, s => RevokeTargets(s, at, rt));
      if changed {
        sessions := doc;
      }
    }

    method RevokeUserSessions(username: string) returns (count: nat)
      modifies this`sessions
      ensures sessions == Sessions.Step(limits, old(sessions), Sessions.RevokeUser(username))
      ensures Fold(username) != [] ==> count == |Sessions.Unrevoked(old(sessions), Fold(username))|
      ensures Fold(username) == [] ==> count == 0
    {
      hide Fold, Sessions.Unrevoked;
      var user := Fold(username);
      count := 0;
      if user == [] {
        return;
      }
      var doc := sessions;
      var i := 0;
      assert |Sessions.Unrevoked(sessions[..0], user)| == 0 by { NoneUnrevoked(user); }
      while i < |doc|
        invariant 0 <= i <= |doc| == |sessions| && sessions == old(sessions)
        invariant forall j :: 0 <= j < i ==>
                    doc[j] == if !sessions[j].revoked && OfUser(sessions[j], user) then Revoke(sessions[j]) else sessions[j]
        invariant forall j :: i <= j < |doc| ==> doc[j] == sessions[j]
        invariant count == |Sessions.Unrevoked(sessions[..i], user)|
        invariant count == 0 ==> doc == sessions
      {
        UnrevokedStep(sessions, i, user);
        if !doc[i].revoked && Fold(doc[i].username) == user {
          doc := doc[i := Revoke(doc[i])];
          count := count + 1;
        }
        i := i + 1;
      }
      assert doc == RevokeWhere(sessions, (s: Session) => !s.revoked && OfUser(s, user));
      assert sessions[..|sessions|] == sessions;
      if count > 0 {
        sessions := doc;
      }
    }

    // ----- users -----

    method FindUserRecord(username: string) returns (r: Option<User>)
      ensures r == FindUser(users, username)
    {
      hide Fold;
      var name := Fold(username);
      if name == [] {
        return None;
      }
      for i := 0 to |users|
        invariant forall j :: 0 <= j < i ==> Fold(users[j].username) != name
      {
        if Fold(users[i].username) == name {
          assert UserIndex(users, username) == i;
          return Some(users[i]);
        }
      }
      assert UserIndex(users, username) == |users|;
      r := None;
    }

    method PositionOf(username: string) returns (i: nat)
      ensures i == UserIndex(users, username)
    {
      hide Fold;
      i := 0;
      while i < |users| && Fold(users[i].username) != Fold(username)
        invariant i <= |users|
        invariant forall j :: 0 <= j < i ==> Fold(users[j].username) != Fold(username)
      {
        i := i + 1;
      }
    }

    method LoadRolesDoc()
      modifies this`roles
      ensures roles == LoadRoles(old(roles))
    {
      hide Fold, CleanPermissions;
      var payload := roles;
      var normalized: seq<Role> := [];
      var seen: set<string> := {};
      for i := 0 to |payload|
        invariant roles == payload
        invariant normalized == CleanRoles(payload[..i])
        invariant forall n :: n in seen <==> HasRole(normalized, n)
      {
        CleanRolesAppend(payload[..i], payload[i]);
        assert payload[..i + 1] == payload[..i] + [payload[i]];
        var name := Fold(payload[i].name);
        if name != [] {
          var role := Role(name, CleanPermissions(payload[i].permissions));
          HasRoleAppend(normalized, role);
          normalized := normalized + [role];
          seen := seen + {name};
        }
      }
      assert payload[..|payload|] == payload;
      for i := 0 to |DEFAULT_ROLES|
        invariant roles == payload
        invariant WithMissing(normalized, DEFAULT_ROLES[i..]) == LoadRoles(payload)
        invariant forall n :: n in seen <==> HasRole(normalized, n)
      {
        if DEFAULT_ROLES[i].name !in seen {
          HasRoleAppend(normalized, DEFAULT_ROLES[i]);
          normalized := normalized + [DEFAULT_ROLES[i]];
          seen := seen + {DEFAULT_ROLES[i].name};
        }
      }
      if normalized != payload {
        roles := normalized;
      }
    }

    method RoleExists(roleName: string) returns (b: bool)
      modifies this`roles
      ensures roles == if Fold(roleName) == [] then old(roles) else LoadRoles(old(roles))
      ensures b <==> Fold(roleName) != [] && HasRole(roles, Fold(roleName))
    {
      hide LoadRoles, Fold;
      var name := Fold(roleName);
      if name == [] {
        return false;
      }
      LoadRolesDoc();
      var doc := roles;
      for i := 0 to |doc|
        invariant roles == doc == LoadRoles(old(roles))
        invariant forall j :: 0 <= j < i ==> doc[j].name != name
      {
        if doc[i].name == name {
          assert doc[i] in roles;
          return true;
        }
      }
      b := false;
    }

    method CreateAccount(username: string, password: string, hash: string, role: string, enabled: bool,
                         tenant: Option<string>, now: int) returns (error: Option<Error>)
      modifies this`users, this`roles
      ensures CreateUser(old(Documents()), username, password, hash, role, enabled, tenant, now) == Outcome(Documents(), error)
      ensures FollowsRun(old(Documents()), AccountRuns.Create(username, password, hash, role, enabled, tenant, now))
    {
      hide LoadRoles, Fold, HasRole, CleanTenant, AccountRuns.Step, Integrity;
      AccountRuns.StepMeans(Documents(), AccountRuns.Create(username, password, hash, role, enabled, tenant, now));
      var name := CheckUsername(username);
      if name.Err? {
        return Some(name.error);
      }
      if CheckPassword(password).Some? {
        return CheckPassword(password);
      }
      var roleName := CheckRoleName(if role == [] then "viewer" else role);
      if roleName.Err? {
        return Some(roleName.error);
      }
      FoldIdempotent(if role == [] then "viewer" else role);
      var known := RoleExists(roleName.value);
      if !known {
        return Some(UnknownRole);
      }
      var at := PositionOf(name.value);
      if at < |users| {
        return Some(UserExists);
      }
      users := users + [User(name.value, roleName.value, hash, now, enabled, false, "local", CleanTenant(tenant), None)];
      error := None;
    }

    /** The record is changed in place and written back only when no check fails. */
    method UpdateAccount(username: string, changes: Changes, hash: string) returns (error: Option<Error>)
      modifies this`users, this`roles
      ensures UpdateUser(old(Documents()), username, changes, hash) == Outcome(Documents(), error)
      ensures FollowsRun(old(Documents()), AccountRuns.Update(username, changes, hash))
    {
      hide LoadRoles, Fold, HasRole, CleanTenant, AccountRuns.Step, Integrity;
      AccountRuns.StepMeans(Documents(), AccountRuns.Update(username, changes, hash));
      var name := CheckUsername(username);
      if name.Err? {
        return Some(name.error);
      }
      var at := PositionOf(name.value);
      if at == |users| {
        return Some(UserNotFound);
      }
      var target := users[at];
      if changes.role.Some? {
        var roleName := CheckRoleName(if changes.role.value == [] then "viewer" else changes.role.value);
        if roleName.Err? {
          return Some(roleName.error);
        }
        FoldIdempotent(if changes.role.value == [] then "viewer" else changes.role.value);
        var known := RoleExists(roleName.value);
        if !known {
          return Some(UnknownRole);
        }
        target := target.(role := roleName.value);
      }
      if changes.enabled.Some? {
        target := target.(enabled := changes.enabled.value);
      }
      if changes.password.Some? {
        if CheckPassword(changes.password.value).Some? {
          return CheckPassword(changes.password.value);
        }
        target := target.(passwordHash := hash);
      }
      if changes.tenant.Some? {
        target := target.(tenant := CleanTenant(changes.tenant.value));
      }
      target := target.(bootstrapOnly := false);
      users := users[at := target];
      error := None;
    }

    method DeleteAccount(username: string) returns (changed: bool)
      modifies this`users
      ensures Documents() == DeleteUser(old(Documents()), username)
      ensures FollowsRun(old(Documents()), AccountRuns.Delete(username))
      ensures changed <==> users != old(users)
    {
      hide Fold, Strip, AccountRuns.Step, Integrity;
      AccountRuns.StepMeans(Documents(), AccountRuns.Delete(username));
      if Strip(username) == [] {
        return false;
      }
      var doc := users;
      var kept: seq<User> := [];
      ghost var keep := (u: User) => Fold(u.username) != Fold(username);
      for i := 0 to |doc|
        invariant users == doc && kept == Filter(doc[..i], keep)
      {
        FilterAppend(doc[..i], doc[i], keep);
        assert doc[..i + 1] == doc[..i] + [doc[i]];
        if Fold(doc[i].username) != Fold(username) {
          kept := kept + [doc[i]];
        }
      }
      assert doc[..|doc|] == doc;
      FilterLength(doc, keep);
      changed := |kept| != |doc|;
      if changed {
        users := kept;
      } else {
        FilterAll(users, keep);
      }
    }

    method EnsureBootstrap(username: string, password: string, hash: string, now: int)
      modifies this`users, this`roles
      ensures Documents() == EnsureBootstrapAdmin(old(Documents()), username, password, hash, now)
      ensures FollowsRun(old(Documents()), AccountRuns.Bootstrap(username, password, hash, now))
    {
      hide LoadRoles, Fold, AccountRuns.Step, Integrity;
      AccountRuns.StepMeans(Documents(), AccountRuns.Bootstrap(username, password, hash, now));
      LoadRolesDoc();
      var name := Strip(username);
      if name == [] || password == [] {
        return;
      }
      var at := PositionOf(name);
      if at == |users| {
        users := users + [User(name, "superadmin", hash, now, true, true, "local", None, None)];
      }
    }

    // ----- roles -----

    method PutRole(name: string, permissions: set<string>) returns (error: Option<Error>)
      modifies this`roles
      ensures SaveRole(old(Documents()), name, permissions) == Outcome(Documents(), error)
      ensures FollowsRun(old(Documents()), AccountRuns.PutRole(name, permissions))
    {
      hide LoadRoles, Fold, CleanPermissions, AccountRuns.Step, Integrity;
      AccountRuns.StepMeans(Documents(), AccountRuns.PutRole(name, permissions));
      var roleName := CheckRoleName(name);
      if roleName.Err? {
        return Some(roleName.error);
      }
      if BuiltIn(roleName.value) {
        return Some(BuiltInRole);
      }
      LoadRolesDoc();
      var at := 0;
      while at < |roles| && roles[at].name != roleName.value
        invariant at <= |roles| && roles == LoadRoles(old(roles))
        invariant forall j :: 0 <= j < at ==> roles[j].name != roleName.value
      {
        at := at + 1;
      }
      assert at == RoleIndex(roles, roleName.value);
      var role := Role(roleName.value, CleanPermissions(permissions));
      roles := if at == |roles| then roles + [role] else roles[at := role];
      error := None;
    }

    method RolesBut(rolesDoc: seq<Role>, roleName: string) returns (kept: seq<Role>)
      ensures kept == Filter(rolesDoc, (r: Role) => r.name != roleName)
      ensures HasRole(rolesDoc, roleName) <==> |kept| != |rolesDoc|
    {
      kept := [];
      ghost var keep := (r: Role) => r.name != roleName;
      for i := 0 to |rolesDoc|
        invariant kept == Filter(rolesDoc[..i], keep)
      {
        FilterAppend(rolesDoc[..i], rolesDoc[i], keep);
        assert rolesDoc[..i + 1] == rolesDoc[..i] + [rolesDoc[i]];
        if rolesDoc[i].name != roleName {
          kept := kept + [rolesDoc[i]];
        }
      }
      assert rolesDoc[..|rolesDoc|] == rolesDoc;
      FilterLength(rolesDoc, keep);
    }

    method DemotedFrom(accounts: seq<User>, roleName: string) returns (doc: seq<User>)
      ensures doc == Demote(accounts, roleName)
    {
      hide Fold;
      doc := accounts;
      for i := 0 to |doc|
        invariant |doc| == |accounts|
        invariant forall j :: 0 <= j < i ==>
                    doc[j] == if Fold(accounts[j].role) == roleName then accounts[j].(role := "viewer") else accounts[j]
        invariant forall j :: i <= j < |doc| ==> doc[j] == accounts[j]
      {
        if Fold(doc[i].role) == roleName {
          doc := doc[i := doc[i].(role := "viewer")];
        }
      }
    }

    method DropRole(name: string) returns (changed: bool)
      modifies this`roles, this`users
      ensures Documents() == DeleteRole(old(Documents()), name)
      ensures FollowsRun(old(Documents()), AccountRuns.DropRole(name))
      ensures changed <==> Fold(name) != [] && !BuiltIn(Fold(name)) && HasRole(LoadRoles(old(roles)), Fold(name))
    {
      hide LoadRoles, Fold, BuiltIn, HasRole, Demote, Filter, AccountRuns.Step, Integrity;
      AccountRuns.StepMeans(Documents(), AccountRuns.DropRole(name));
      var roleName := Fold(name);
      if roleName == [] || BuiltIn(roleName) {
        return false;
      }
      LoadRolesDoc();
      var kept := RolesBut(roles, roleName);
      changed := |kept| != |roles|;
      if changed {
        var doc := DemotedFrom(users, roleName);
        roles := kept;
        users := doc;
      }
    }

    // ----- onboarding -----

    method QueryOnboarding(bootstrapName: string, bootstrapDisabled: bool, now: int) returns (status: Status)
      modifies this`users, this`onboarding
      ensures OnboardingStatus(old(Documents()), bootstrapName, bootstrapDisabled, now) == (Documents(), status)
      ensures FollowsRun(old(Documents()), AccountRuns.CheckStatus(bootstrapName, bootstrapDisabled, now))
    {
      hide Fold, LeastName, AccountRuns.Step, Integrity;
      AccountRuns.StepMeans(Documents(), AccountRuns.CheckStatus(bootstrapName, bootstrapDisabled, now));
      if bootstrapDisabled && !AnyReal(users) && AnyBootstrap(users) {
        var doc := users;
        var filtered: seq<User> := [];
        ghost var keep := (u: User) => !u.bootstrapOnly;
        for i := 0 to |doc|
          invariant Documents() == old(Documents())
          invariant filtered == Filter(doc[..i], keep)
        {
          FilterAppend(doc[..i], doc[i], keep);
          assert doc[..i + 1] == doc[..i] + [doc[i]];
          if !doc[i].bootstrapOnly {
            filtered := filtered + [doc[i]];
          }
        }
        assert doc[..|doc|] == doc;
        users := filtered;
      }
      var completed := onboarding.completed || AnyReal(users);
      if !AnyReal(users) && AnyBootstrap(users) && onboarding.completed
         && Fold(onboarding.completedBy) == BootstrapName(bootstrapName) {
        onboarding := Onboarding(false, 0, "");
        completed := false;
      }
      if completed && !onboarding.completed {
        onboarding := Onboarding(true, now, LeastName(users));
      }
      status := Status(!completed, onboarding.completedAt, Strip(onboarding.completedBy), |users|);
    }

    method FinishOnboarding(username: string, password: string, hash: string, bootstrapName: string,
                            bootstrapDisabled: bool, now: int) returns (r: Result<Status, Error>)
      modifies this`users, this`roles, this`onboarding
      ensures CompleteOnboarding(old(Documents()), username, password, hash, bootstrapName, bootstrapDisabled, now)
              == OnboardingOutcome(Documents(), r)
      ensures FollowsRun(old(Documents()), AccountRuns.Complete(username, password, hash, bootstrapName, bootstrapDisabled, now))
    {
      hide OnboardingStatus, CreateUser, UpdateUser, Fold, AccountRuns.Step, Integrity;
      AccountRuns.StepMeans(Documents(), AccountRuns.Complete(username, password, hash, bootstrapName, bootstrapDisabled, now));
      var name := CheckUsername(username);
      if name.Err? {
        return Err(name.error);
      }
      if CheckPassword(password).Some? {
        return Err(CheckPassword(password).value);
      }
      var status := QueryOnboarding(bootstrapName, bootstrapDisabled, now);
      if !status.pending {
        return Err(AlreadyCompleted);
      }
      var at := PositionOf(name.value);
      var error: Option<Error>;
      if at == |users| {
        error := CreateAccount(name.value, password, hash, "superadmin", true, None, now);
      } else {
        error := UpdateAccount(name.value, Changes(Some("superadmin"), Some(true), Some(password), None), hash);
      }
      if error.Some? {
        return Err(error.value);
      }
      onboarding := Onboarding(true, now, name.value);
      var final := QueryOnboarding(bootstrapName, bootstrapDisabled, now);
      r := Ok(final);
    }
  }

  lemma ActiveFromStep(l: Limits, ss: seq<Session>, user: string, now: int, i: nat)
    requires i < |ss|
    ensures ActiveFrom(l, ss, user, now, i) ==
            (if OfUser(ss[i], user) && !Expired(l, ss[i], now, false) then [i] else [])
            + ActiveFrom(l, ss, user, now, i + 1)
  {
  }

  lemma ActiveFromEnd(l: Limits, ss: seq<Session>, user: string, now: int)
    ensures ActiveFrom(l, ss, user, now, |ss|) == []
  {
  }

  lemma UnrevokedStep(ss: seq<Session>, i: nat, user: string)
    requires i < |ss|
    ensures |Sessions.Unrevoked(ss[..i + 1], user)| ==
            |Sessions.Unrevoked(ss[..i], user)| + if !ss[i].revoked && OfUser(ss[i], user) then 1 else 0
  {
    var before, next := Sessions.Unrevoked(ss[..i], user), Sessions.Unrevoked(ss[..i + 1], user);
    assert next == before + if !ss[i].revoked && OfUser(ss[i], user) then {i} else {};
  }

  lemma NoneUnrevoked(user: string)
    ensures Sessions.Unrevoked([], user) == {}
  {
  }

  lemma RefreshStep(l: Limits, ss: seq<Session>, op: Sessions.Op)
    requires op.Refresh?
    ensures Sessions.Step(l, ss, op) == Refreshed(l, ss, Strip(op.token), op.now, op.users, op.access)
    ensures Sessions.Accepts(l, ss, op) == RefreshAccepts(l, ss, Strip(op.token), op.now, op.users)
  {
    hide Refreshed, RefreshAccepts;
  }

  lemma RefreshMisses(l: Limits, ss: seq<Session>, token: string, now: int, userOk: string -> bool, access: string)
    ensures token == [] || (forall j :: 0 <= j < |ss| ==> ss[j].revoked || ss[j].refresh != token) ==>
              Refreshed(l, ss, token, now, userOk, access) == ss && !RefreshAccepts(l, ss, token, now, userOk)
  {
    hide Expired, Strip;
  }

  lemma RefreshedAt(l: Limits, ss: seq<Session>, token: string, now: int, userOk: string -> bool, access: string, i: nat)
    requires i < |ss| && !ss[i].revoked && ss[i].refresh == token && token != []
    requires forall j :: 0 <= j < i ==> ss[j].revoked || ss[j].refresh != token
    ensures RefreshHit(ss, token) == i
    ensures var ok := !Expired(l, ss[i], now, false) && userOk(Strip(ss[i].username));
            && RefreshAccepts(l, ss, token, now, userOk) == ok
            && Refreshed(l, ss, token, now, userOk, access) ==
               ss[i := if ok then Touch(l, ss[i], now).(access := access) else Revoke(ss[i])]
  {
    hide Expired, Strip;
  }

  lemma {:induction false} CleanRolesAppend(raw: seq<Role>, r: Role)
    ensures CleanRoles(raw + [r]) == CleanRoles(raw) + CleanRoles([r])
  {
    if raw == [] {
      assert raw + [r] == [r];
    } else {
      assert (raw + [r])[1..] == raw[1..] + [r];
      CleanRolesAppend(raw[1..], r);
    }
  }

  lemma HasRoleAppend(roles: seq<Role>, r: Role)
    ensures forall n :: HasRole(roles + [r], n) <==> HasRole(roles, n) || n == r.name
  {
    assert r in roles + [r];
  }
}
