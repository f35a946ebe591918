/** What account edits mean to whoever looks a user or role up afterwards, logs in, or refreshes. */
module AccountEffects {
  import opened Prelude
  import opened Text
  import opened SessionSpec
  import opened AccountSpec
  import opened AuthSession
  import Runs = AccountRuns

  // ----- texts without their blanks -----

  /** `core` is the text without the blanks around it. */
  ghost predicate Core(text: string, core: string) {
    Stripped(core) && exists left, right :: Around(text, left, core, right)
  }

  predicate Around(text: string, left: string, core: string, right: string) {
    text == left + core + right && forall c :: c in left || c in right ==> IsSpace(c)
  }

  lemma CoreIsStrip(text: string, core: string)
    ensures Core(text, core) <==> core == Strip(text)
  {
    hide Strip, Stripped, IsSpace;
    StripIsStripped(text);
    var left, right := StripShape(text);
    assert Around(text, left, Strip(text), right);
    if Core(text, core) {
      var l, r :| Around(text, l, core, r);
      StripPadding(l, core, r);
    }
  }

  /** A blank tenant is none, a blank role is viewer, and others lose the blanks around them. */
  lemma BlanksAreDropped(text: string, core: string)
    ensures CleanTenant(None) == None
    ensures CleanTenant(Some(text)) == Some(core) <==> Core(text, core) && core != []
    ensures CleanTenant(Some(text)) == None <==> Core(text, [])
    ensures OrViewer(text) == core <==> if Core(text, []) then core == "viewer" else Core(text, core)
  {
    hide Strip, Core;
    CoreIsStrip(text, core);
    CoreIsStrip(text, []);
  }

  /** A one-time code is asked for exactly if a secret is stored that is not blank. */
  lemma CodeIsAskedExactly(u: User)
    ensures NeedsCode(u) <==> u.totp.Some? && exists c :: c in u.totp.value && !IsSpace(c)
  {
    hide Strip, IsSpace;
    if u.totp.Some? {
      var left, right := StripShape(u.totp.value);
      StripIsStripped(u.totp.value);
      if NeedsCode(u) {
        SolidStart(Strip(u.totp.value));
        assert Strip(u.totp.value)[0] in u.totp.value;
      }
    }
  }

  lemma SolidStart(s: string)
    requires s != [] && Stripped(s)
    ensures !IsSpace(s[0])
  {
  }

  // ----- lookups after an edit -----

  lemma UserIndexIs(users: seq<User>, name: string, i: nat)
    requires i <= |users| && forall j :: 0 <= j < i ==> Fold(users[j].username) != Fold(name)
    requires i < |users| ==> Fold(users[i].username) == Fold(name)
    ensures UserIndex(users, name) == i
  {
    hide Fold;
  }

  lemma FindAppended(users: seq<User>, u: User, x: string)
    requires UserIndex(users, u.username) == |users| && Fold(u.username) != []
    ensures FindUser(users + [u], x) == if Fold(x) == Fold(u.username) then Some(u) else FindUser(users, x)
  {
    hide Fold;
    var i := UserIndex(users, x);
    UserIndexIs(users + [u], x, if Fold(x) == Fold(u.username) then |users| else if i == |users| then |users| + 1 else i);
  }

  lemma FindReplaced(users: seq<User>, name: string, v: User, x: string)
    requires UserIndex(users, name) < |users| && Fold(v.username) == Fold(name) != []
    ensures FindUser(users[UserIndex(users, name) := v], x) == if Fold(x) == Fold(name) then Some(v) else FindUser(users, x)
  {
    hide Fold;
    var i := UserIndex(users, x);
    if Fold(x) == Fold(name) { UserIndexIs(users, x, UserIndex(users, name)); }
    UserIndexIs(users[UserIndex(users, name) := v], x, i);
  }

  // ----- creating and updating users -----

  /** The role an argument names; an empty one stands for viewer. */
  function NamedRole(role: string): string {
    Fold(if role == [] then "viewer" else role)
  }

  predicate GoodName(username: string) {
    1 <= |Strip(username)| <= 64 && forall c :: c in Strip(username) ==> IdentChar(c) || c == '.' || c == '-'
  }

  predicate GoodRoleName(name: string) {
    1 <= |name| <= 64 && forall c :: c in name ==> IdentChar(c) || c == '.' || c == '-' || c == ':'
  }

  predicate GoodRole(roles: seq<Role>, role: string) {
    GoodRoleName(NamedRole(role)) && HasRole(LoadRoles(roles), NamedRole(role))
  }

  /** Creation succeeds exactly for a good new name, a long enough password and an existing role; the user is
      then found with what was asked for, everybody else as before, and can log in with that password hash
      exactly if enabled. */
  lemma CreatedUser(a: Accounts, username: string, password: string, hash: string, role: string,
                    enabled: bool, tenant: Option<string>, now: int)
    ensures var out := CreateUser(a, username, password, hash, role, enabled, tenant, now);
            && (out.error.None? <==>
                  GoodName(username) && |password| >= 8 && GoodRole(a.roles, role) && UserIndex(a.users, username) == |a.users|)
            && (out.error.Some? ==> out.state.users == a.users)
            && (out.error.None? ==> forall x ::
                  FindUser(out.state.users, x) ==
                    if Fold(x) == Fold(username) then
                      Some(User(Strip(username), NamedRole(role), hash, now, enabled, false, "local", CleanTenant(tenant), None))
                    else FindUser(a.users, x))
  {
    hide LoadRoles, HasRole, Fold, Strip, CleanTenant;
    var out := CreateUser(a, username, password, hash, role, enabled, tenant, now);
    NameAsGiven(username);
    SameIndex(a.users, Strip(username), username);
    if out.error.None? {
      forall x
        ensures FindUser(out.state.users, x) ==
                  if Fold(x) == Fold(username) then Some(Last(out.state.users)) else FindUser(a.users, x)
      {
        FindAppended(a.users, Last(out.state.users), x);
      }
    }
  }

  lemma NameAsGiven(username: string)
    ensures Fold(Strip(username)) == Fold(username)
    ensures Strip(username) != [] ==> Fold(username) != []
  {
    FoldIdempotent(username);
  }

  lemma {:induction false} SameIndex(users: seq<User>, x: string, y: string)
    requires Fold(x) == Fold(y)
    ensures UserIndex(users, x) == UserIndex(users, y)
  {
    hide Fold;
    if users != [] {
      SameIndex(users[1..], x, y);
    }
  }

  /** An update succeeds exactly for an existing user, an existing role and a long enough password, if it
      names them; the user is then found with the named fields changed, every other one kept and no bootstrap
      account any more, and everybody else is found as before. */
  lemma UpdatedUser(a: Accounts, username: string, changes: Changes, hash: string)
    ensures var out := UpdateUser(a, username, changes, hash);
            && (out.error.None? <==>
                  && GoodName(username) && UserIndex(a.users, username) < |a.users|
                  && (changes.role.Some? ==> GoodRole(a.roles, changes.role.value))
                  && (changes.password.Some? ==> |changes.password.value| >= 8))
            && (out.error.Some? ==> out.state.users == a.users)
            && (out.error.None? ==>
                  && FindUser(a.users, username).Some?
                  && forall x ::
                       FindUser(out.state.users, x) ==
                         if Fold(x) == Fold(username) then Some(Changed(FindUser(a.users, username).value, changes, hash))
                         else FindUser(a.users, x))
  {
    hide LoadRoles, HasRole, Fold, Strip, CleanTenant, UpdateUser, GoodName, GoodRole, Changed;
    var out := UpdateUser(a, username, changes, hash);
    UpdateSucceeds(a, username, changes, hash);
    if out.error.None? {
      UpdateReplaces(a, username, changes, hash);
      var i := UserIndex(a.users, username);
      forall x
        ensures FindUser(out.state.users, x) ==
                  if Fold(x) == Fold(username) then Some(out.state.users[i]) else FindUser(a.users, x)
      {
        FindReplaced(a.users, username, out.state.users[i], x);
      }
    }
  }

  lemma UpdateSucceeds(a: Accounts, username: string, changes: Changes, hash: string)
    ensures var out := UpdateUser(a, username, changes, hash);
            && (out.error.None? <==>
                  && GoodName(username) && UserIndex(a.users, username) < |a.users|
                  && (changes.role.Some? ==> GoodRole(a.roles, changes.role.value))
                  && (changes.password.Some? ==> |changes.password.value| >= 8))
            && (out.error.Some? ==> out.state.users == a.users)
  {
    hide LoadRoles, HasRole, Fold, Strip, CleanTenant;
    NameAsGiven(username);
    SameIndex(a.users, Strip(username), username);
  }

  lemma UpdateReplaces(a: Accounts, username: string, changes: Changes, hash: string)
    requires UpdateUser(a, username, changes, hash).error.None? && UserIndex(a.users, username) < |a.users|
    ensures var i := UserIndex(a.users, username);
            && FindUser(a.users, username) == Some(a.users[i]) && Fold(username) != []
            && UpdateUser(a, username, changes, hash).state.users == a.users[i := Changed(a.users[i], changes, hash)]
            && Fold(Changed(a.users[i], changes, hash).username) == Fold(username)
  {
    hide LoadRoles, HasRole, Fold, Strip, CleanTenant, CheckPassword;
    NameAsGiven(username);
    SameIndex(a.users, Strip(username), username);
  }

  /** The user with the fields an update names. */
  function Changed(u: User, changes: Changes, hash: string): User {
    User(u.username,
         if changes.role.Some? then NamedRole(changes.role.value) else u.role,
         if changes.password.Some? then hash else u.passwordHash,
         u.createdAt,
         if changes.enabled.Some? then changes.enabled.value else u.enabled,
         false,
         u.authSource,
         if changes.tenant.Some? then CleanTenant(changes.tenant.value) else u.tenant,
         u.totp)
  }

  // ----- logging in and refreshing after an edit -----

  /** A created user passes the password check exactly when enabled and the new hash accepts. */
  lemma CreatedUserLogsIn(a: Accounts, username: string, password: string, hash: string, role: string, enabled: bool,
                          tenant: Option<string>, now: int, verify: string -> bool)
    ensures var out := CreateUser(a, username, password, hash, role, enabled, tenant, now);
            out.error.None? ==> (PasswordAccepted(out.state.users, username, verify) <==> enabled && verify(hash))
  {
    hide LoadRoles, HasRole, Strip, CleanTenant, CreateUser, FindUser;
    CreatedUser(a, username, password, hash, role, enabled, tenant, now);
    LocalIsNotLdap();
    NameAsGiven(username);
  }

  lemma LocalIsNotLdap()
    ensures Fold("local") != "ldap"
  {
    StripOfStripped("local");
  }

  /** After an update the user passes the password check exactly when still enabled, local, and the hash of the
      new password accepts, or the old one if none was named; everybody else as before. */
  lemma UpdatedUserLogsIn(a: Accounts, username: string, changes: Changes, hash: string, x: string, verify: string -> bool)
    requires UpdateUser(a, username, changes, hash).error.None?
    ensures FindUser(a.users, username).Some?
    ensures var u := FindUser(a.users, username).value;
            PasswordAccepted(UpdateUser(a, username, changes, hash).state.users, username, verify) <==>
              && changes.enabled.GetOr(u.enabled) && Fold(u.authSource) != "ldap"
              && verify(if changes.password.Some? then hash else u.passwordHash)
    ensures Fold(x) != Fold(username) ==>
              PasswordAccepted(UpdateUser(a, username, changes, hash).state.users, x, verify) == PasswordAccepted(a.users, x, verify)
  {
    hide LoadRoles, HasRole, Strip, CleanTenant, UpdateUser, FindUser, Fold;
    UpdatedUser(a, username, changes, hash);
    NameAsGiven(x);
    NameAsGiven(username);
  }

  /** The role a refresh reports is the one an update gave the user, whatever the session was opened with. */
  lemma RefreshReportsNewRole(a: Accounts, username: string, changes: Changes, hash: string, s: Session)
    requires UpdateUser(a, username, changes, hash).error.None?
    requires changes.role.Some? && Fold(s.username) == Fold(username)
    ensures RoleNow(UpdateUser(a, username, changes, hash).state.users, s) == NamedRole(changes.role.value)
  {
    hide LoadRoles, HasRole, Strip, CleanTenant, UpdateUser, FindUser, Fold;
    UpdatedUser(a, username, changes, hash);
    NameAsGiven(s.username);
    FoldIdempotent(if changes.role.value == [] then "viewer" else changes.role.value);
    StripOfStripped(NamedRole(changes.role.value));
  }

  /** Where no user of the session's name is found or its role is empty, the role of login is reported. */
  lemma RefreshReportsRole(users: seq<User>, s: Session, u: User)
    ensures FindUser(users, Strip(s.username)) == Some(u) && u.role != [] && Stripped(u.role) ==> RoleNow(users, s) == u.role
    ensures FindUser(users, Strip(s.username)) == None && s.role != [] && Stripped(s.role) ==> RoleNow(users, s) == s.role
  {
    hide FindUser, Strip;
    if Stripped(u.role) { StripOfStripped(u.role); }
    if Stripped(s.role) { StripOfStripped(s.role); }
  }

  // ----- roles -----

  /** The permissions of the first role of that name. */
  function PermissionsOf(roles: seq<Role>, name: string): Option<set<string>> {
    var i := RoleIndex(roles, name);
    if i == |roles| then None else Some(roles[i].permissions)
  }

  lemma RoleIndexIs(roles: seq<Role>, name: string, i: nat)
    requires i <= |roles| && forall j :: 0 <= j < i ==> roles[j].name != name
    requires i < |roles| ==> roles[i].name == name
    ensures RoleIndex(roles, name) == i
  {
  }

  /** Saving a role succeeds exactly for a proper name that is not built in; on the next loading the role has
      the stripped nonempty permissions of the call and every other role its own. */
  lemma SavedRole(a: Accounts, name: string, permissions: set<string>)
    ensures var out := SaveRole(a, name, permissions);
            && (out.error.None? <==>
                  GoodRoleName(Fold(name)) && !BuiltIn(Fold(name)))
            && (out.error.Some? ==> out.state == a)
            && (out.error.None? ==>
                  var saved := PermissionsOf(LoadRoles(out.state.roles), Fold(name));
                  && saved.Some? && out.state.users == a.users
                  && (forall p :: p in saved.value <==> p != [] && exists q :: q in permissions && Strip(q) == p)
                  && forall x :: x != Fold(name) ==>
                       PermissionsOf(LoadRoles(out.state.roles), x) == PermissionsOf(LoadRoles(a.roles), x))
  {
    hide LoadRoles, Fold, BuiltIn;
    var out := SaveRole(a, name, permissions);
    if out.error.None? {
      Runs.SavedRolesLoad(a, name, permissions);
      var before, after, i := LoadRoles(a.roles), out.state.roles, RoleIndex(LoadRoles(a.roles), Fold(name));
      RoleIndexIs(after, Fold(name), i);
      forall x | x != Fold(name)
        ensures PermissionsOf(after, x) == PermissionsOf(before, x)
      {
        var j := RoleIndex(before, x);
        RoleIndexIs(after, x, if j == |before| then |after| else j);
      }
    }
  }

  lemma {:induction false} FilledUp(roles: seq<Role>, defaults: seq<Role>, name: string)
    ensures PermissionsOf(WithMissing(roles, defaults), name) ==
            if HasRole(roles, name) then PermissionsOf(roles, name) else PermissionsOf(defaults, name)
    decreases |defaults|
  {
    if defaults == [] {
      if !HasRole(roles, name) { RoleIndexIs(roles, name, |roles|); }
    } else {
      hide WithMissing, HasRole;
      var d := defaults[0];
      var next := if HasRole(roles, d.name) then roles else roles + [d];
      assert WithMissing(roles, defaults) == WithMissing(next, defaults[1..]) by { MissingStep(roles, defaults); }
      FilledUp(next, defaults[1..], name);
      OneMore(roles, d, name);
      HeadRole(defaults, name);
    }
  }

  lemma MissingStep(roles: seq<Role>, defaults: seq<Role>)
    requires defaults != []
    ensures WithMissing(roles, defaults) ==
            WithMissing(if HasRole(roles, defaults[0].name) then roles else roles + [defaults[0]], defaults[1..])
  {
  }

  lemma OneMore(roles: seq<Role>, d: Role, name: string)
    ensures HasRole(roles + [d], name) <==> HasRole(roles, name) || name == d.name
    ensures HasRole(roles, name) ==> PermissionsOf(roles + [d], name) == PermissionsOf(roles, name)
    ensures !HasRole(roles, name) && name == d.name ==> PermissionsOf(roles + [d], name) == Some(d.permissions)
  {
    var i := RoleIndex(roles, name);
    assert i < |roles| ==> roles[i] in roles;
    if HasRole(roles, name) {
      var r :| r in roles && r.name == name;
      assert r in roles + [d];
      RoleIndexIs(roles + [d], name, i);
    } else if name == d.name {
      assert d in roles + [d];
      RoleIndexIs(roles + [d], name, |roles|);
    }
  }

  lemma HeadRole(roles: seq<Role>, name: string)
    requires roles != []
    ensures PermissionsOf(roles, name) ==
            if roles[0].name == name then Some(roles[0].permissions) else PermissionsOf(roles[1..], name)
  {
    if roles[0].name != name {
      RoleIndexIs(roles, name, 1 + RoleIndex(roles[1..], name));
    }
  }

  /** A built-in role that the stored document lacks is loaded with its default permissions; stored roles keep
      their own. */
  lemma MissingRolesAreDefault(raw: seq<Role>, name: string)
    ensures PermissionsOf(LoadRoles(raw), name) ==
            if HasRole(CleanRoles(raw), name) then PermissionsOf(CleanRoles(raw), name) else Defaults(name)
  {
    hide WithMissing, CleanRoles, HasRole;
    FilledUp(CleanRoles(raw), DEFAULT_ROLES, name);
    DefaultTable(name);
  }

  /** The permissions of the built-in roles. */
  function Defaults(name: string): Option<set<string>> {
    match name
    case "viewer" => Some({})
    case "kiosk_operator" => Some(KIOSK_PERMISSIONS)
    case "ops" => Some(OPS_PERMISSIONS)
    case "admin" => Some(ADMIN_PERMISSIONS)
    case "superadmin" => Some({"*"})
    case _ => None
  }

  lemma DefaultTable(name: string)
    ensures PermissionsOf(DEFAULT_ROLES, name) == Defaults(name)
  {
    hide PermissionsOf;
    var rs := DEFAULT_ROLES;
    assert rs[1..][1..] == rs[2..] && rs[2..][1..] == rs[3..] && rs[3..][1..] == rs[4..] && rs[4..][1..] == [];
    HeadRole(rs, name);
    HeadRole(rs[1..], name);
    HeadRole(rs[2..], name);
    HeadRole(rs[3..], name);
    HeadRole(rs[4..], name);
    NoRole(name);
  }

  lemma NoRole(name: string)
    ensures PermissionsOf([], name) == None
  {
  }

  // ----- onboarding -----

  /** The name under which the bootstrap account counts as itself. */
  lemma BootstrapNameIs(name: string)
    ensures BootstrapName(name) == if Core(name, []) then "admin" else Fold(name)
  {
    hide Core, Lower;
    CoreIsStrip(name, []);
    StripOfStripped("admin");
    assert Lower("admin") == "admin";
  }

  /** The enabled non-bootstrap user whose name comes first. */
  ghost predicate FirstByName(users: seq<User>, u: User) {
    && u in users && RealUser(u)
    && forall v :: v in users && RealUser(v) ==> !LexLess(Fold(v.username), Fold(u.username))
  }

  lemma {:induction false} LeastNameIsFirst(users: seq<User>) returns (u: User)
    requires AnyReal(users)
    ensures FirstByName(users, u) && LeastName(users) == Strip(u.username)
  {
    hide Fold, LexLess, RealUser;
    var rest := users[1..];
    assert users == [users[0]] + rest;
    u := users[0];
    if AnyReal(rest) {
      var w := LeastNameIsFirst(rest);
      assert Lower(LeastName(rest)) == Fold(w.username) by { FoldIsLowerStrip(w.username); }
      if !RealUser(u) || LexLess(Fold(w.username), Fold(u.username)) {
        LexTotal(Fold(u.username), Fold(w.username));
        u := w;
      } else {
        forall v | v in users && RealUser(v)
          ensures !LexLess(Fold(v.username), Fold(u.username))
        {
          NotBelow(Fold(u.username), Fold(w.username), Fold(v.username));
        }
      }
    } else {
      LexTotal(Fold(u.username), Fold(u.username));
      assert forall v :: v in users && RealUser(v) ==> v == u;
    }
  }

  lemma FoldIsLowerStrip(s: string)
    ensures Fold(s) == Lower(Strip(s))
  {
  }

  /** What is not below `w` is not below `u` either, when `w` is not. */
  lemma NotBelow(u: string, w: string, v: string)
    requires !LexLess(w, u) && (!LexLess(v, w) || v == u)
    ensures !LexLess(v, u)
  {
    hide LexLess;
    LexTotal(u, w);
    LexTotal(v, u);
    if LexLess(v, u) && LexLess(u, w) {
      LexTransitive(v, u, w);
    }
  }

  /** What a status check does to the documents: only with bootstrap accounts disabled and nobody else enabled
      are bootstrap accounts removed; the onboarding document is completed in the name of the first user when
      there is one, cleared when it was completed and is pending again, and otherwise left alone; and the
      answer reports the documents as they are afterwards. */
  lemma StatusEffects(a: Accounts, bootstrapName: string, disabled: bool, now: int)
    ensures var (b, status) := OnboardingStatus(a, bootstrapName, disabled, now);
            && b.roles == a.roles
            && (disabled && !AnyReal(a.users) && AnyBootstrap(a.users) ==>
                  forall u :: u in b.users <==> u in a.users && !u.bootstrapOnly)
            && (!(disabled && !AnyReal(a.users) && AnyBootstrap(a.users)) ==> b.users == a.users)
            && (a.onboarding.completed == !status.pending ==> b.onboarding == a.onboarding)
            && (a.onboarding.completed && status.pending ==> b.onboarding == Onboarding(false, 0, ""))
            && (!a.onboarding.completed && !status.pending ==>
                  exists u :: FirstByName(a.users, u) && b.onboarding == Onboarding(true, now, Strip(u.username)))
            && status.completedAt == b.onboarding.completedAt && status.userCount == |b.users|
            && Core(b.onboarding.completedBy, status.completedBy)
  {
    hide Fold, Strip, LeastName, RealUser, BootstrapName, Core;
    var (b, status) := OnboardingStatus(a, bootstrapName, disabled, now);
    FilterMembers(a.users, (u: User) => !u.bootstrapOnly);
    CoreIsStrip(b.onboarding.completedBy, status.completedBy);
    if AnyReal(a.users) {
      var u := LeastNameIsFirst(a.users);
    } else {
      OnlyRealUsersComplete(a, bootstrapName, disabled, now);
    }
  }

  lemma OnlyRealUsersComplete(a: Accounts, bootstrapName: string, disabled: bool, now: int)
    requires !AnyReal(a.users)
    ensures a.onboarding.completed || OnboardingStatus(a, bootstrapName, disabled, now).1.pending
  {
    hide Fold, LeastName;
    Runs.PendingExactlyWhen(a, bootstrapName, disabled, now);
  }
}
