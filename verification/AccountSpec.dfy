/** Users, roles and onboarding: what each account operation does to the three documents, and what
    every run keeps. LDAP is not configured. */
module AccountSpec {
  import opened Prelude
  import opened Text

  const MIN_PASSWORD_LENGTH := 8

  datatype User = User(
    username: string,
    role: string,
    passwordHash: string,
    createdAt: int,
    enabled: bool,
    bootstrapOnly: bool,
    authSource: string,
    tenant: Option<string>,
    totp: Option<string>)

  datatype Role = Role(name: string, permissions: set<string>)

  datatype Onboarding = Onboarding(completed: bool, completedAt: int, completedBy: string)

  datatype Accounts = Accounts(users: seq<User>, roles: seq<Role>, onboarding: Onboarding)

  datatype Error =
    | UsernameRequired | InvalidUsername | PasswordRequired | PasswordTooShort
    | RoleRequired | InvalidRole | UnknownRole | BuiltInRole
    | UserExists | UserNotFound | AlreadyCompleted

  /** The documents after the call, and why it was refused if it was. */
  datatype Outcome = Outcome(state: Accounts, error: Option<Error>)

  // ----- names and passwords -----

  predicate NameChar(c: char) {
    'A' <= c <= 'Z' || 'a' <= c <= 'z' || '0' <= c <= '9' || c == '.' || c == '_' || c == '-'
  }

  predicate UsernameOk(s: string) {
    1 <= |s| <= 64 && forall c :: c in s ==> NameChar(c)
  }

  predicate RoleNameOk(s: string) {
    1 <= |s| <= 64 && forall c :: c in s ==> NameChar(c) || c == ':'
  }

  function CheckUsername(username: string): Result<string, Error> {
    var value := Strip(username);
    if value == [] then Err(UsernameRequired)
    else if !UsernameOk(value) then Err(InvalidUsername)
    else Ok(value)
  }

  function CheckRoleName(name: string): Result<string, Error> {
    var value := Fold(name);
    if value == [] then Err(RoleRequired)
    else if !RoleNameOk(value) then Err(InvalidRole)
    else Ok(value)
  }

  function CheckPassword(password: string): Option<Error> {
    if password == [] then Some(PasswordRequired)
    else if |password| < MIN_PASSWORD_LENGTH then Some(PasswordTooShort)
    else None
  }

  // ----- roles -----

  const KIOSK_PERMISSIONS := {"vm:read", "vm:power", "kiosk:operate"}
  const OPS_PERMISSIONS := {"vm:mutate", "actions:bulk", "provisioning:write"}
  const ADMIN_PERMISSIONS := {
    "vm:mutate", "actions:bulk", "provisioning:write", "policy:write", "auth:read", "auth:write",
    "settings:read", "settings:write", "session:download_recording", "session:manage_recording"}

  function DefaultPermissions(name: string): set<string> {
    if name == "kiosk_operator" then KIOSK_PERMISSIONS
    else if name == "ops" then OPS_PERMISSIONS
    else if name == "admin" then ADMIN_PERMISSIONS
    else if name == "superadmin" then {"*"}
    else {}
  }

  const DEFAULT_ROLES: seq<Role> := [
    Role("viewer", DefaultPermissions("viewer")), Role("kiosk_operator", DefaultPermissions("kiosk_operator")),
    Role("ops", DefaultPermissions("ops")), Role("admin", DefaultPermissions("admin")),
    Role("superadmin", DefaultPermissions("superadmin"))]

  predicate BuiltIn(name: string) {
    name == "viewer" || name == "kiosk_operator" || name == "ops" || name == "admin" || name == "superadmin"
  }

  predicate HasRole(roles: seq<Role>, name: string) {
    exists r :: r in roles && r.name == name
  }

  function CleanPermissions(permissions: set<string>): set<string> {
    set p | p in permissions && Strip(p) != [] :: Strip(p)
  }

  function CleanRoles(raw: seq<Role>): seq<Role> {
    if raw == [] then []
    else
      var name := Fold(raw[0].name);
      (if name == [] then [] else [Role(name, CleanPermissions(raw[0].permissions))]) + CleanRoles(raw[1..])
  }

  function WithMissing(roles: seq<Role>, defaults: seq<Role>): seq<Role>
    decreases |defaults|
  {
    if defaults == [] then roles
    else WithMissing(if HasRole(roles, defaults[0].name) then roles else roles + [defaults[0]], defaults[1..])
  }

  /** What loading the roles document yields, and writes back when it differs. */
  function LoadRoles(raw: seq<Role>): seq<Role> {
    WithMissing(CleanRoles(raw), DEFAULT_ROLES)
  }

  // ----- users -----

  /** The first user of that name ignoring case and surrounding blanks, or the length of the list. */
  function UserIndex(users: seq<User>, name: string): (i: nat)
    ensures i <= |users|
    ensures forall j :: 0 <= j < i ==> Fold(users[j].username) != Fold(name)
    ensures i < |users| ==> Fold(users[i].username) == Fold(name)
  {
    if users == [] || Fold(users[0].username) == Fold(name) then 0 else 1 + UserIndex(users[1..], name)
  }

  function FindUser(users: seq<User>, name: string): Option<User> {
    var i := UserIndex(users, name);
    if Fold(name) == [] || i == |users| then None else Some(users[i])
  }

  function CreateUser(a: Accounts, username: string, password: string, hash: string, role: string,
                      enabled: bool, tenant: Option<string>, now: int): Outcome {
    match CheckUsername(username)
    case Err(e) => Outcome(a, Some(e))
    case Ok(name) =>
      if CheckPassword(password).Some? then Outcome(a, CheckPassword(password))
      else match CheckRoleName(if role == [] then "viewer" else role)
      case Err(e) => Outcome(a, Some(e))
      case Ok(roleName) =>
        var loaded := a.(roles := LoadRoles(a.roles));
        if !HasRole(loaded.roles, roleName) then Outcome(loaded, Some(UnknownRole))
        else if UserIndex(a.users, name) < |a.users| then Outcome(loaded, Some(UserExists))
        else
          var user := User(name, roleName, hash, now, enabled, false, "local", CleanTenant(tenant), None);
          Outcome(loaded.(users := a.users + [user]), None)
  }

  function CleanTenant(tenant: Option<string>): Option<string> {
    if tenant.None? || Strip(tenant.value) == [] then None else Some(Strip(tenant.value))
  }

  /** The fields an update names; `None` leaves a field alone. */
  datatype Changes = Changes(role: Option<string>, enabled: Option<bool>, password: Option<string>,
                             tenant: Option<Option<string>>)

  function UpdateUser(a: Accounts, username: string, changes: Changes, hash: string): Outcome {
    match CheckUsername(username)
    case Err(e) => Outcome(a, Some(e))
    case Ok(name) =>
      var i := UserIndex(a.users, name);
      if i == |a.users| then Outcome(a, Some(UserNotFound))
      else
        var roleName := if changes.role.None? then Ok(a.users[i].role)
                        else CheckRoleName(if changes.role.value == [] then "viewer" else changes.role.value);
        if roleName.Err? then Outcome(a, Some(roleName.error))
        else
          var b := if changes.role.None? then a else a.(roles := LoadRoles(a.roles));
          if changes.role.Some? && !HasRole(b.roles, roleName.value) then Outcome(b, Some(UnknownRole))
          else if changes.password.Some? && CheckPassword(changes.password.value).Some? then
            Outcome(b, CheckPassword(changes.password.value))
          else
            var u := a.users[i];
            var v := u.(role := roleName.value,
                        enabled := changes.enabled.GetOr(u.enabled),
                        passwordHash := if changes.password.Some? then hash else u.passwordHash,
                        tenant := if changes.tenant.Some? then CleanTenant(changes.tenant.value) else u.tenant,
                        bootstrapOnly := false);
            Outcome(b.(users := a.users[i := v]), None)
  }

  function DeleteUser(a: Accounts, username: string): Accounts {
    if Strip(username) == [] then a
    else a.(users := Filter(a.users, (u: User) => Fold(u.username) != Fold(username)))
  }

  function EnsureBootstrapAdmin(a: Accounts, username: string, password: string, hash: string, now: int): Accounts {
    var loaded := a.(roles := LoadRoles(a.roles));
    var name := Strip(username);
    if name == [] || password == [] || UserIndex(a.users, name) < |a.users| then loaded
    else loaded.(users := a.users + [User(name, "superadmin", hash, now, true, true, "local", None, None)])
  }

  // ----- role edits -----

  function RoleIndex(roles: seq<Role>, name: string): (i: nat)
    ensures i <= |roles|
    ensures forall j :: 0 <= j < i ==> roles[j].name != name
    ensures i < |roles| ==> roles[i].name == name
  {
    if roles == [] || roles[0].name == name then 0 else 1 + RoleIndex(roles[1..], name)
  }

  function SaveRole(a: Accounts, name: string, permissions: set<string>): Outcome {
    match CheckRoleName(name)
    case Err(e) => Outcome(a, Some(e))
    case Ok(roleName) =>
      if BuiltIn(roleName) then Outcome(a, Some(BuiltInRole))
      else
        var roles := LoadRoles(a.roles);
        var role := Role(roleName, CleanPermissions(permissions));
        var i := RoleIndex(roles, roleName);
        Outcome(a.(roles := if i == |roles| then roles + [role] else roles[i := role]), None)
  }

  function Demote(users: seq<User>, roleName: string): (r: seq<User>)
    ensures |r| == |users|
    ensures forall i :: 0 <= i < |users| ==>
              r[i] == if Fold(users[i].role) == roleName then users[i].(role := "viewer") else users[i]
  {
    seq(|users|, i requires 0 <= i < |users| =>
      if Fold(users[i].role) == roleName then users[i].(role := "viewer") else users[i])
  }

  function DeleteRole(a: Accounts, name: string): Accounts {
    var roleName := Fold(name);
    if roleName == [] || BuiltIn(roleName) then a
    else
      var roles := LoadRoles(a.roles);
      if !HasRole(roles, roleName) then a.(roles := roles)
      else a.(roles := Filter(roles, (r: Role) => r.name != roleName), users := Demote(a.users, roleName))
  }

  // ----- onboarding -----

  datatype Status = Status(pending: bool, completedAt: int, completedBy: string, userCount: nat)

  predicate RealUser(u: User) {
    u.enabled && !u.bootstrapOnly
  }

  predicate AnyReal(users: seq<User>) {
    exists u :: u in users && RealUser(u)
  }

  predicate AnyBootstrap(users: seq<User>) {
    exists u :: u in users && u.enabled && u.bootstrapOnly
  }

  /** The alphabetically first of the enabled non-bootstrap users. */
  function LeastName(users: seq<User>): string
    requires AnyReal(users)
  {
    var u, rest := users[0], users[1..];
    assert users == [u] + rest;
    if !RealUser(u) then LeastName(rest)
    else if !AnyReal(rest) then Strip(u.username)
    else if LexLess(Lower(LeastName(rest)), Fold(u.username)) then LeastName(rest)
    else Strip(u.username)
  }

  function BootstrapName(name: string): string {
    var n := Fold(if name == [] then "admin" else name);
    if n == [] then "admin" else n
  }

  function OnboardingStatus(a: Accounts, bootstrapName: string, bootstrapDisabled: bool, now: int): (Accounts, Status) {
    var purge := bootstrapDisabled && !AnyReal(a.users) && AnyBootstrap(a.users);
    var users := if purge then Filter(a.users, (u: User) => !u.bootstrapOnly) else a.users;
    var ob := a.onboarding;
    var reopened := !AnyReal(users) && AnyBootstrap(users) && ob.completed
                    && Fold(ob.completedBy) == BootstrapName(bootstrapName);
    var completed := !reopened && (ob.completed || AnyReal(users));
    var ob' := if reopened then Onboarding(false, 0, "")
               else if completed && !ob.completed then Onboarding(true, now, LeastName(users))
               else ob;
    (a.(users := users, onboarding := ob'), Status(!completed, ob'.completedAt, Strip(ob'.completedBy), |users|))
  }

  datatype OnboardingOutcome = OnboardingOutcome(state: Accounts, result: Result<Status, Error>)

  function CompleteOnboarding(a: Accounts, username: string, password: string, hash: string,
                              bootstrapName: string, bootstrapDisabled: bool, now: int): OnboardingOutcome {
    match CheckUsername(username)
    case Err(e) => OnboardingOutcome(a, Err(e))
    case Ok(name) =>
      if CheckPassword(password).Some? then OnboardingOutcome(a, Err(CheckPassword(password).value))
      else
        var (b, status) := OnboardingStatus(a, bootstrapName, bootstrapDisabled, now);
        if !status.pending then OnboardingOutcome(b, Err(AlreadyCompleted))
        else
          var changed := if UserIndex(b.users, name) == |b.users|
                         then CreateUser(b, name, password, hash, "superadmin", true, None, now)
                         else UpdateUser(b, name, Changes(Some("superadmin"), Some(true), Some(password), None), hash);
          if changed.error.Some? then OnboardingOutcome(changed.state, Err(changed.error.value))
          else
            var c := changed.state.(onboarding := Onboarding(true, now, name));
            var (d, final) := OnboardingStatus(c, bootstrapName, bootstrapDisabled, now);
            OnboardingOutcome(d, Ok(final))
  }

  // ----- integrity -----

  ghost predicate UniqueNames(users: seq<User>) {
    forall i, j :: 0 <= i < j < |users| ==> Fold(users[i].username) != Fold(users[j].username)
  }

  ghost predicate RolesExist(users: seq<User>, roles: seq<Role>) {
    forall u :: u in users ==> u.role == Fold(u.role) && HasRole(LoadRoles(roles), u.role)
  }

  ghost predicate Integrity(a: Accounts) {
    UniqueNames(a.users) && RolesExist(a.users, a.roles)
  }

  lemma {:induction false} WithMissingProperties(roles: seq<Role>, defaults: seq<Role>)
    ensures roles <= WithMissing(roles, defaults)
    ensures forall d :: d in defaults ==> HasRole(WithMissing(roles, defaults), d.name)
    ensures forall r :: r in WithMissing(roles, defaults) ==> r in roles || r in defaults
    ensures (forall d :: d in defaults ==> HasRole(roles, d.name)) ==> WithMissing(roles, defaults) == roles
    decreases |defaults|
  {
    if defaults != [] {
      hide HasRole;
      var next := if HasRole(roles, defaults[0].name) then roles else roles + [defaults[0]];
      WithMissingProperties(next, defaults[1..]);
      var all := WithMissing(next, defaults[1..]);
      LastHasRole(roles, defaults[0]);
      PrefixHasRole(next, all, defaults[0].name);
      assert defaults == [defaults[0]] + defaults[1..];
      assert defaults[0] in defaults;
    }
  }

  lemma LastHasRole(roles: seq<Role>, r: Role)
    ensures HasRole(roles + [r], r.name)
  {
    assert r in roles + [r];
  }

  lemma PrefixHasRole(part: seq<Role>, all: seq<Role>, name: string)
    requires part <= all && HasRole(part, name)
    ensures HasRole(all, name)
  {
    var r :| r in part && r.name == name;
    assert r in all;
  }

  ghost predicate CleanRole(r: Role) {
    r.name != [] && Fold(r.name) == r.name && CleanPermissions(r.permissions) == r.permissions
  }

  lemma {:induction false} CleanRolesProperties(raw: seq<Role>)
    ensures forall r :: r in CleanRoles(raw) ==> CleanRole(r)
    ensures (forall r :: r in raw ==> CleanRole(r)) ==> CleanRoles(raw) == raw
  {
    if raw != [] {
      CleanRolesProperties(raw[1..]);
      FoldIdempotent(raw[0].name);
      CleanPermissionsIdempotent(raw[0].permissions);
      assert raw == [raw[0]] + raw[1..];
      if forall r :: r in raw ==> CleanRole(r) {
        assert raw[0] in raw;
      }
    }
  }

  lemma CleanPermissionsIdempotent(p: set<string>)
    ensures CleanPermissions(CleanPermissions(p)) == CleanPermissions(p)
  {
    forall x ensures Strip(Strip(x)) == Strip(x) { StripIsStripped(x); }
  }

  lemma FoldOfName(s: string)
    requires forall c :: c in s ==> NameChar(c) || c == ':'
    requires forall c :: c in s ==> !('A' <= c <= 'Z')
    ensures Fold(s) == s
  {
    assert forall i :: 0 <= i < |s| ==> s[i] in s;
    StripOfStripped(s);
  }

  lemma PermissionsAreClean(ps: set<string>)
    requires forall p :: p in ps ==> p != [] && Stripped(p)
    ensures CleanPermissions(ps) == ps
  {
    forall p | p in ps
      ensures Strip(p) == p && Strip(p) != []
    {
      StripOfStripped(p);
    }
  }

  lemma DefaultPermissionsAreClean(name: string)
    ensures CleanPermissions(DefaultPermissions(name)) == DefaultPermissions(name)
  {
    hide CleanPermissions;
    PermissionsAreClean(DefaultPermissions(name));
  }

  lemma BuiltInNamesAreClean(name: string)
    requires BuiltIn(name)
    ensures name != [] && Fold(name) == name
  {
    hide Fold;
    FoldOfName(name);
  }

  lemma DefaultRolesAreClean()
    ensures forall r :: r in DEFAULT_ROLES ==> CleanRole(r)
    ensures forall name :: BuiltIn(name) ==> HasRole(DEFAULT_ROLES, name)
  {
    hide Fold, CleanPermissions, DefaultPermissions;
    forall r | r in DEFAULT_ROLES
      ensures CleanRole(r)
    {
      assert BuiltIn(r.name) && r.permissions == DefaultPermissions(r.name);
      BuiltInNamesAreClean(r.name);
      DefaultPermissionsAreClean(r.name);
    }
    forall name | BuiltIn(name)
      ensures HasRole(DEFAULT_ROLES, name)
    {
      assert Role(name, DefaultPermissions(name)) in DEFAULT_ROLES;
    }
  }

  /** Whatever document is on disk, loading it yields every built-in role, and loading again changes nothing. */
  lemma LoadedRoles(raw: seq<Role>)
    ensures forall name :: BuiltIn(name) ==> HasRole(LoadRoles(raw), name)
    ensures LoadRoles(LoadRoles(raw)) == LoadRoles(raw)
    ensures forall r :: r in LoadRoles(raw) ==> CleanRole(r)
  {
    hide CleanRole, BuiltIn;
    DefaultRolesAreClean();
    CleanRolesProperties(raw);
    WithMissingProperties(CleanRoles(raw), DEFAULT_ROLES);
    var loaded := LoadRoles(raw);
    CleanRolesProperties(loaded);
    WithMissingProperties(loaded, DEFAULT_ROLES);
    forall name | BuiltIn(name)
      ensures HasRole(loaded, name)
    {
      var r :| r in DEFAULT_ROLES && r.name == name;
      assert HasRole(loaded, r.name);
    }
  }
}
