/** What every run of account operations keeps, from any roles document on disk and no users. */
module AccountRuns {
  import opened Prelude
  import opened Text
  import opened AccountSpec

  datatype Op =
    | Create(username: string, password: string, hash: string, role: string, enabled: bool,
             tenant: Option<string>, now: int)
    | Update(username: string, changes: Changes, hash: string)
    | Delete(username: string)
    | PutRole(name: string, permissions: set<string>)
    | DropRole(name: string)
    | Bootstrap(username: string, password: string, hash: string, now: int)
    | CheckStatus(bootstrapName: string, bootstrapDisabled: bool, now: int)
    | Complete(username: string, password: string, hash: string, bootstrapName: string, bootstrapDisabled: bool, now: int)

  function Step(a: Accounts, op: Op): Accounts {
    match op
    case Create(username, password, hash, role, enabled, tenant, now) =>
      CreateUser(a, username, password, hash, role, enabled, tenant, now).state
    case Update(username, changes, hash) => UpdateUser(a, username, changes, hash).state
    case Delete(username) => DeleteUser(a, username)
    case PutRole(name, permissions) => SaveRole(a, name, permissions).state
    case DropRole(name) => DeleteRole(a, name)
    case Bootstrap(username, password, hash, now) => EnsureBootstrapAdmin(a, username, password, hash, now)
    case CheckStatus(name, disabled, now) => OnboardingStatus(a, name, disabled, now).0
    case Complete(username, password, hash, name, disabled, now) =>
      CompleteOnboarding(a, username, password, hash, name, disabled, now).state
  }

  function Run(start: Accounts, ops: seq<Op>): Accounts {
    if ops == [] then start else Step(Run(start, ops[..|ops| - 1]), Last(ops))
  }

  // ----- roles -----

  /** A clean list with every built-in role is what loading leaves alone. */
  lemma LoadFixed(roles: seq<Role>)
    requires forall r :: r in roles ==> CleanRole(r)
    requires forall name :: BuiltIn(name) ==> HasRole(roles, name)
    ensures LoadRoles(roles) == roles
  {
    hide CleanRole;
    CleanRolesProperties(roles);
    forall d | d in DEFAULT_ROLES
      ensures HasRole(roles, d.name)
    {
      assert BuiltIn(d.name);
    }
    WithMissingProperties(roles, DEFAULT_ROLES);
  }

  lemma LoadingKeeps(a: Accounts)
    requires Integrity(a)
    ensures Integrity(a.(roles := LoadRoles(a.roles)))
  {
    LoadedRoles(a.roles);
  }

  lemma HasRoleGrows(old_: seq<Role>, new_: seq<Role>, name: string)
    requires forall r :: r in old_ ==> HasRole(new_, r.name)
    ensures HasRole(old_, name) ==> HasRole(new_, name)
  {
  }

  /** Saving leaves a document that loading leaves alone, and drops no role. */
  lemma SavedRolesLoad(a: Accounts, name: string, permissions: set<string>)
    requires SaveRole(a, name, permissions).error.None?
    ensures var after := SaveRole(a, name, permissions).state.roles;
            && LoadRoles(after) == after
            && forall n :: HasRole(LoadRoles(a.roles), n) ==> HasRole(after, n)
  {
    hide LoadRoles, Fold, CleanPermissions, BuiltIn;
    var roles := LoadRoles(a.roles);
    var roleName := CheckRoleName(name).value;
    var i := RoleIndex(roles, roleName);
    var role := Role(roleName, CleanPermissions(permissions));
    var after := SaveRole(a, name, permissions).state.roles;
    LoadedRoles(a.roles);
    FoldIdempotent(name);
    CleanPermissionsIdempotent(permissions);
    assert CleanRole(role);
    forall r | r in roles
      ensures HasRole(after, r.name)
    {
      var k :| 0 <= k < |roles| && roles[k] == r;
      assert after[k].name == r.name;
      assert after[k] in after;
    }
    forall n | BuiltIn(n)
      ensures HasRole(after, n)
    {
      HasRoleGrows(roles, after, n);
    }
    LoadFixed(after);
  }

  lemma SaveRoleKeeps(a: Accounts, name: string, permissions: set<string>)
    requires Integrity(a)
    ensures Integrity(SaveRole(a, name, permissions).state)
  {
    hide LoadRoles, Fold, CleanPermissions, BuiltIn, HasRole;
    if SaveRole(a, name, permissions).error.None? {
      SavedRolesLoad(a, name, permissions);
    }
  }

  lemma DeleteRoleKeeps(a: Accounts, name: string)
    requires Integrity(a)
    ensures Integrity(DeleteRole(a, name))
  {
    hide LoadRoles, Fold, CleanPermissions, BuiltIn;
    var roleName := Fold(name);
    LoadingKeeps(a);
    if roleName != [] && !BuiltIn(roleName) && HasRole(LoadRoles(a.roles), roleName) {
      var roles := LoadRoles(a.roles);
      var keep := (r: Role) => r.name != roleName;
      var after := DeleteRole(a, name).roles;
      LoadedRoles(a.roles);
      FilterMembers(roles, keep);
      assert forall n :: HasRole(roles, n) && n != roleName ==> HasRole(after, n);
      assert BuiltIn("viewer") && Fold("viewer") == "viewer" by {
        ViewerIsBuiltIn();
      }
      LoadFixed(after);
      var users := DeleteRole(a, name).users;
      forall u | u in users
        ensures u.role == Fold(u.role) && HasRole(after, u.role)
      {
        var k :| 0 <= k < |users| && users[k] == u;
        assert a.users[k] in a.users;
      }
    }
  }

  lemma ViewerIsBuiltIn()
    ensures BuiltIn("viewer") && Fold("viewer") == "viewer"
  {
    BuiltInNamesAreClean("viewer");
  }

  // ----- users -----

  lemma AppendKeeps(users: seq<User>, u: User)
    requires UniqueNames(users) && UserIndex(users, u.username) == |users|
    ensures UniqueNames(users + [u])
  {
  }

  lemma CreateUserKeeps(a: Accounts, username: string, password: string, hash: string, role: string,
                        enabled: bool, tenant: Option<string>, now: int)
    requires Integrity(a)
    ensures Integrity(CreateUser(a, username, password, hash, role, enabled, tenant, now).state)
  {
    hide LoadRoles, Fold, CleanTenant;
    LoadingKeeps(a);
    LoadedRoles(a.roles);
    FoldIdempotent(if role == [] then "viewer" else role);
    var out := CreateUser(a, username, password, hash, role, enabled, tenant, now);
    if out.error.None? {
      AppendKeeps(a.users, Last(out.state.users));
    }
  }

  lemma UpdateUserKeeps(a: Accounts, username: string, changes: Changes, hash: string)
    requires Integrity(a)
    ensures Integrity(UpdateUser(a, username, changes, hash).state)
  {
    hide LoadRoles, Fold, CleanTenant;
    LoadingKeeps(a);
    LoadedRoles(a.roles);
    if changes.role.Some? {
      FoldIdempotent(if changes.role.value == [] then "viewer" else changes.role.value);
    }
    var out := UpdateUser(a, username, changes, hash);
    if out.error.None? {
      var i := UserIndex(a.users, CheckUsername(username).value);
      assert a.users[i] in a.users;
    }
  }

  lemma {:induction false} FilterUsers(users: seq<User>, keep: User -> bool)
    requires UniqueNames(users)
    ensures UniqueNames(Filter(users, keep))
    ensures forall u :: u in Filter(users, keep) ==> u in users
  {
    hide Fold;
    FilterMembers(users, keep);
    if users != [] {
      FilterUsers(users[1..], keep);
      var tail := Filter(users[1..], keep);
      forall k | 0 <= k < |tail|
        ensures Fold(tail[k].username) != Fold(users[0].username)
      {
        assert tail[k] in tail;
      }
    }
  }

  lemma StatusKeeps(a: Accounts, bootstrapName: string, disabled: bool, now: int)
    requires Integrity(a)
    ensures Integrity(OnboardingStatus(a, bootstrapName, disabled, now).0)
  {
    hide LoadRoles, Fold, LeastName;
    FilterUsers(a.users, (u: User) => !u.bootstrapOnly);
  }

  lemma BootstrapKeeps(a: Accounts, username: string, password: string, hash: string, now: int)
    requires Integrity(a)
    ensures Integrity(EnsureBootstrapAdmin(a, username, password, hash, now))
  {
    hide LoadRoles, Fold;
    LoadingKeeps(a);
    LoadedRoles(a.roles);
    assert BuiltIn("superadmin");
    BuiltInNamesAreClean("superadmin");
    FoldIdempotent(username);
    var after := EnsureBootstrapAdmin(a, username, password, hash, now);
    if |after.users| > |a.users| {
      AppendKeeps(a.users, Last(after.users));
    }
  }

  lemma CompleteKeeps(a: Accounts, username: string, password: string, hash: string,
                      bootstrapName: string, disabled: bool, now: int)
    requires Integrity(a)
    ensures Integrity(CompleteOnboarding(a, username, password, hash, bootstrapName, disabled, now).state)
  {
    hide OnboardingStatus, CreateUser, UpdateUser, LoadRoles, Fold;
    StatusKeeps(a, bootstrapName, disabled, now);
    var (b, status) := OnboardingStatus(a, bootstrapName, disabled, now);
    if CheckUsername(username).Ok? && CheckPassword(password).None? && status.pending {
      var name := CheckUsername(username).value;
      CreateUserKeeps(b, name, password, hash, "superadmin", true, None, now);
      UpdateUserKeeps(b, name, Changes(Some("superadmin"), Some(true), Some(password), None), hash);
      var changed := if UserIndex(b.users, name) == |b.users|
                     then CreateUser(b, name, password, hash, "superadmin", true, None, now)
                     else UpdateUser(b, name, Changes(Some("superadmin"), Some(true), Some(password), None), hash);
      StatusKeeps(changed.state.(onboarding := Onboarding(true, now, name)), bootstrapName, disabled, now);
    }
  }

  /** Every operation keeps integrity. */
  lemma StepKeeps(a: Accounts, op: Op)
    requires Integrity(a)
    ensures Integrity(Step(a, op))
  {
    hide CreateUser, UpdateUser, DeleteUser, SaveRole, DeleteRole, EnsureBootstrapAdmin, OnboardingStatus,
         CompleteOnboarding, LoadRoles, Fold, BuiltIn, HasRole, Integrity;
    match op {
      case Create(username, password, hash, role, enabled, tenant, now) =>
        CreateUserKeeps(a, username, password, hash, role, enabled, tenant, now);
      case Update(username, changes, hash) => UpdateUserKeeps(a, username, changes, hash);
      case Delete(username) => DeleteUserKeeps(a, username);
      case PutRole(name, permissions) => SaveRoleKeeps(a, name, permissions);
      case DropRole(name) => DeleteRoleKeeps(a, name);
      case Bootstrap(username, password, hash, now) => BootstrapKeeps(a, username, password, hash, now);
      case CheckStatus(name, disabled, now) => StatusKeeps(a, name, disabled, now);
      case Complete(username, password, hash, name, disabled, now) =>
        CompleteKeeps(a, username, password, hash, name, disabled, now);
    }
  }

  /** The operation by its own function, and that integrity is kept. */
  lemma StepMeans(a: Accounts, op: Op)
    ensures Integrity(a) ==> Integrity(Step(a, op))
    ensures match op
            case Create(username, password, hash, role, enabled, tenant, now) =>
              Step(a, op) == CreateUser(a, username, password, hash, role, enabled, tenant, now).state
            case Update(username, changes, hash) => Step(a, op) == UpdateUser(a, username, changes, hash).state
            case Delete(username) => Step(a, op) == DeleteUser(a, username)
            case PutRole(name, permissions) => Step(a, op) == SaveRole(a, name, permissions).state
            case DropRole(name) => Step(a, op) == DeleteRole(a, name)
            case Bootstrap(username, password, hash, now) =>
              Step(a, op) == EnsureBootstrapAdmin(a, username, password, hash, now)
            case CheckStatus(name, disabled, now) => Step(a, op) == OnboardingStatus(a, name, disabled, now).0
            case Complete(username, password, hash, name, disabled, now) =>
              Step(a, op) == CompleteOnboarding(a, username, password, hash, name, disabled, now).state
  {
    hide CreateUser, UpdateUser, DeleteUser, SaveRole, DeleteRole, EnsureBootstrapAdmin, OnboardingStatus,
         CompleteOnboarding, Integrity;
    if Integrity(a) { StepKeeps(a, op); }
  }

  /** Usernames stay unique ignoring case and every user's role exists, through every run. */
  lemma {:induction false} IntegrityOverRuns(roles: seq<Role>, onboarding: Onboarding, ops: seq<Op>)
    ensures Integrity(Run(Accounts([], roles, onboarding), ops))
    ensures forall name :: BuiltIn(name) ==> HasRole(LoadRoles(Run(Accounts([], roles, onboarding), ops).roles), name)
  {
    hide Step, LoadRoles, Fold, BuiltIn, HasRole;
    var start := Accounts([], roles, onboarding);
    if ops != [] {
      IntegrityOverRuns(roles, onboarding, ops[..|ops| - 1]);
      StepKeeps(Run(start, ops[..|ops| - 1]), Last(ops));
    }
    LoadedRoles(Run(start, ops).roles);
  }

  lemma DeleteUserKeeps(a: Accounts, username: string)
    requires Integrity(a)
    ensures Integrity(DeleteUser(a, username))
  {
    hide LoadRoles, Fold;
    FilterUsers(a.users, (u: User) => Fold(u.username) != Fold(username));
  }

  // ----- a removed name or role is gone -----

  lemma NoneLeft(users: seq<User>, name: string)
    requires forall u :: u in users ==> Fold(u.username) != Fold(name)
    ensures UserIndex(users, name) == |users|
  {
    hide Fold;
    assert forall i :: 0 <= i < |users| ==> users[i] in users;
  }

  lemma DeletedUserIsGone(a: Accounts, username: string)
    requires Strip(username) != []
    ensures FindUser(DeleteUser(a, username).users, username) == None
    ensures forall u :: u in DeleteUser(a, username).users <==> u in a.users && Fold(u.username) != Fold(username)
  {
    hide Fold;
    FilterMembers(a.users, (u: User) => Fold(u.username) != Fold(username));
    NoneLeft(DeleteUser(a, username).users, username);
  }

  /** Deleting a role removes it for good and demotes exactly its holders to viewer. */
  lemma DeletedRoleIsGone(a: Accounts, name: string)
    requires Integrity(a)
    requires Fold(name) != [] && !BuiltIn(Fold(name))
    ensures var b := DeleteRole(a, name);
            && !HasRole(LoadRoles(b.roles), Fold(name))
            && |b.users| == |a.users|
            && forall i :: 0 <= i < |a.users| ==>
                 b.users[i] == if a.users[i].role == Fold(name) then a.users[i].(role := "viewer") else a.users[i]
  {
    hide LoadRoles, Fold, CleanPermissions, BuiltIn;
    var roleName, roles := Fold(name), LoadRoles(a.roles);
    var b := DeleteRole(a, name);
    LoadedRoles(a.roles);
    FilterMembers(roles, (r: Role) => r.name != roleName);
    if HasRole(roles, roleName) {
      assert forall n :: HasRole(roles, n) && n != roleName ==> HasRole(b.roles, n);
      LoadFixed(b.roles);
    }
    assert forall i :: 0 <= i < |a.users| ==> a.users[i] in a.users;
  }

  // ----- onboarding -----

  /** Onboarding is pending exactly when there is no enabled non-bootstrap user and it was never
      completed, or only the bootstrap account itself completed it and that account is still there. */
  lemma PendingExactlyWhen(a: Accounts, bootstrapName: string, disabled: bool, now: int)
    ensures OnboardingStatus(a, bootstrapName, disabled, now).1.pending <==>
              && !AnyReal(a.users)
              && (!a.onboarding.completed
                  || (AnyBootstrap(a.users) && !disabled && Fold(a.onboarding.completedBy) == BootstrapName(bootstrapName)))
  {
    hide Fold, LeastName;
    FilterMembers(a.users, (u: User) => !u.bootstrapOnly);
  }

  /** The onboarding document that says `name` completed. */
  predicate CompletedAs(a: Accounts, name: string) {
    a.onboarding.completed && Fold(a.onboarding.completedBy) == Fold(name)
  }

  /** The operation, if it takes a bootstrap name, takes one other than `name`. */
  predicate Spares(op: Op, name: string) {
    match op
    case CheckStatus(bootstrapName, _, _) => BootstrapName(bootstrapName) != Fold(name)
    case Complete(_, _, _, bootstrapName, _, _) => BootstrapName(bootstrapName) != Fold(name)
    case _ => true
  }

  lemma StatusSpares(a: Accounts, name: string, bootstrapName: string, disabled: bool, now: int)
    requires CompletedAs(a, name) && BootstrapName(bootstrapName) != Fold(name)
    ensures var (b, status) := OnboardingStatus(a, bootstrapName, disabled, now);
            b.onboarding == a.onboarding && !status.pending
  {
    hide Fold, LeastName, BootstrapName;
  }

  lemma StepSpares(a: Accounts, op: Op, name: string)
    requires CompletedAs(a, name) && Spares(op, name)
    ensures Step(a, op).onboarding == a.onboarding
  {
    hide LoadRoles, Fold, CleanTenant, LeastName, BootstrapName, OnboardingStatus, HasRole, BuiltIn, CheckPassword,
         CompletedAs;
    match op {
      case CheckStatus(bootstrapName, disabled, now) =>
        StatusSpares(a, name, bootstrapName, disabled, now);
      case Complete(_, _, _, bootstrapName, disabled, now) =>
        StatusSpares(a, name, bootstrapName, disabled, now);
      case _ =>
    }
  }

  /** No run that spares the name changes an onboarding document completed by it. */
  lemma {:induction false} CompletionLasts(start: Accounts, ops: seq<Op>, name: string)
    requires CompletedAs(start, name) && forall op :: op in ops ==> Spares(op, name)
    ensures Run(start, ops).onboarding == start.onboarding
  {
    hide Step, Spares;
    if ops != [] {
      var init := ops[..|ops| - 1];
      assert forall op :: op in init ==> op in ops;
      assert Last(ops) in ops;
      CompletionLasts(start, init, name);
      StepSpares(Run(start, init), Last(ops), name);
    }
  }

  /** A successful completion leaves an enabled superadmin of that name who is no bootstrap account. From
      then on, whatever else happens, deletion of every user included, the onboarding document stays as
      written and no status is pending, as long as status and completion are asked with other bootstrap
      names; and no status at all is pending while an enabled non-bootstrap user exists. */
  lemma CompletedStaysCompleted(a: Accounts, username: string, password: string, hash: string,
                                bootstrapName: string, disabled: bool, now: int, ops: seq<Op>,
                                laterName: string, laterDisabled: bool, later: int)
    ensures var out := CompleteOnboarding(a, username, password, hash, bootstrapName, disabled, now);
            var end := Run(out.state, ops);
            var pending := OnboardingStatus(end, laterName, laterDisabled, later).1.pending;
            out.result.Ok? ==>
              && !out.result.value.pending
              && (exists u :: u in out.state.users && RealUser(u) && u.role == "superadmin" && Fold(u.username) == Fold(username))
              && ((forall op :: op in ops ==> Spares(op, username)) ==>
                    && end.onboarding == Onboarding(true, now, Strip(username))
                    && (BootstrapName(laterName) != Fold(username) ==> !pending))
              && (AnyReal(end.users) ==> !pending)
  {
    hide Step, Run, Spares, OnboardingStatus, AnyReal, BootstrapName, Fold, CompleteOnboarding, RealUser;
    var out := CompleteOnboarding(a, username, password, hash, bootstrapName, disabled, now);
    var end := Run(out.state, ops);
    if out.result.Err? {
      return;
    }
    CompletionPromotes(a, username, password, hash, bootstrapName, disabled, now);
    CompletionWrites(a, username, password, hash, bootstrapName, disabled, now);
    PendingExactlyWhen(end, laterName, laterDisabled, later);
    if forall op :: op in ops ==> Spares(op, username) {
      CompletionLasts(out.state, ops, username);
      if BootstrapName(laterName) != Fold(username) {
        StatusSpares(end, username, laterName, laterDisabled, later);
      }
    }
  }

  /** What a successful completion leaves behind: the document names the user, and there is no enabled
      non-bootstrap user of another name. */
  lemma CompletionWrites(a: Accounts, username: string, password: string, hash: string,
                         bootstrapName: string, disabled: bool, now: int)
    requires CompleteOnboarding(a, username, password, hash, bootstrapName, disabled, now).result.Ok?
    ensures var b := CompleteOnboarding(a, username, password, hash, bootstrapName, disabled, now).state;
            && b.onboarding == Onboarding(true, now, Strip(username)) && CompletedAs(b, username) && Fold(username) != []
            && forall u :: u in b.users && RealUser(u) ==> Fold(u.username) == Fold(username)
  {
    hide OnboardingStatus, LoadRoles, HasRole, CheckPassword, LeastName, Fold, CreateUser, UpdateUser, RealUser;
    var name := CheckUsername(username).value;
    FoldIdempotent(username);
    var (b, status) := OnboardingStatus(a, bootstrapName, disabled, now);
    var changed := if UserIndex(b.users, name) == |b.users|
                   then CreateUser(b, name, password, hash, "superadmin", true, None, now)
                   else UpdateUser(b, name, Changes(Some("superadmin"), Some(true), Some(password), None), hash);
    var c := changed.state.(onboarding := Onboarding(true, now, name));
    PendingMeansNoReal(a, bootstrapName, disabled, now);
    CheckedTwice(username);
    PromotedUser(b, name, password, hash, now);
    RealUsersStay(c, bootstrapName, disabled, now);
    OnlyPromoted(b, name, password, hash, now);
    NonEmptyFold(username);
  }

  lemma CheckedTwice(username: string)
    requires CheckUsername(username).Ok?
    ensures CheckUsername(CheckUsername(username).value) == CheckUsername(username)
  {
    StripIsStripped(username);
  }

  lemma NonEmptyFold(username: string)
    requires CheckUsername(username).Ok?
    ensures Fold(username) != []
  {
    FoldIdempotent(username);
  }

  lemma PendingMeansNoReal(a: Accounts, bootstrapName: string, disabled: bool, now: int)
    requires OnboardingStatus(a, bootstrapName, disabled, now).1.pending
    ensures !AnyReal(OnboardingStatus(a, bootstrapName, disabled, now).0.users)
  {
    hide Fold, LeastName;
  }

  /** Where no enabled non-bootstrap user exists, creating or promoting one makes it the only one. */
  lemma OnlyPromoted(b: Accounts, name: string, password: string, hash: string, now: int)
    requires CheckUsername(name).Ok? && !AnyReal(b.users)
    ensures var changed := if UserIndex(b.users, CheckUsername(name).value) == |b.users|
                           then CreateUser(b, name, password, hash, "superadmin", true, None, now)
                           else UpdateUser(b, name, Changes(Some("superadmin"), Some(true), Some(password), None), hash);
            changed.error.None? ==> forall u :: u in changed.state.users && RealUser(u) ==> Fold(u.username) == Fold(name)
  {
    hide LoadRoles, HasRole, CheckPassword, Fold, CleanTenant;
    FoldIdempotent(name);
  }

  /** A run after which `bootstrapName` finds onboarding pending, all its status checks and completions made
      with that name. */
  ghost predicate Reopens(start: Accounts, bootstrapName: string, ops: seq<Op>, disabled: bool, later: int) {
    && (forall op :: op in ops && op.CheckStatus? ==> BootstrapName(op.bootstrapName) == BootstrapName(bootstrapName))
    && (forall op :: op in ops && op.Complete? ==> BootstrapName(op.bootstrapName) == BootstrapName(bootstrapName))
    && OnboardingStatus(Run(start, ops), bootstrapName, disabled, later).1.pending
  }

  /** After a completion, onboarding can become pending again exactly under a bootstrap name that the
      completing user has. */
  lemma PendingAgainExactly(a: Accounts, username: string, password: string, hash: string,
                            bootstrapName: string, disabled: bool, now: int, laterName: string)
    ensures var out := CompleteOnboarding(a, username, password, hash, bootstrapName, disabled, now);
            out.result.Ok? ==>
              ((exists ops, d, later :: Reopens(out.state, laterName, ops, d, later)) <==> BootstrapName(laterName) == Fold(username))
  {
    hide Step, Run, OnboardingStatus, AnyReal, BootstrapName, Fold, CompleteOnboarding, RealUser;
    if CompleteOnboarding(a, username, password, hash, bootstrapName, disabled, now).result.Err? {
      return;
    }
    var done := CompleteOnboarding(a, username, password, hash, bootstrapName, disabled, now).state;
    CompletionWrites(a, username, password, hash, bootstrapName, disabled, now);
    if BootstrapName(laterName) == Fold(username) {
      var ops := [Delete(username), Bootstrap(username, "secret", hash, now)];
      RemovedAndBootstrapped(done, username, "secret", hash, now, laterName);
      assert Reopens(done, laterName, ops, false, now);
    } else {
      forall ops, d, later
        ensures !Reopens(done, laterName, ops, d, later)
      {
        if Reopens(done, laterName, ops, d, later) {
          assert forall op :: op in ops ==> Spares(op, username);
          CompletionLasts(done, ops, username);
          StatusSpares(Run(done, ops), username, laterName, d, later);
          assert false;
        }
      }
    }
  }

  lemma RemovedAndBootstrapped(done: Accounts, username: string, password: string, hash: string, now: int, laterName: string)
    requires CompletedAs(done, username) && Fold(username) != [] && password != []
    requires forall u :: u in done.users && RealUser(u) ==> Fold(u.username) == Fold(username)
    requires BootstrapName(laterName) == Fold(username)
    ensures OnboardingStatus(Run(done, [Delete(username), Bootstrap(username, password, hash, now)]), laterName, false, now).1.pending
  {
    hide LoadRoles, Fold, BootstrapName, LeastName, OnboardingStatus;
    var ops := [Delete(username), Bootstrap(username, password, hash, now)];
    var b := DeleteUser(done, username);
    var c := EnsureBootstrapAdmin(b, username, password, hash, now);
    assert ops[..1] == [Delete(username)] && ops[..1][..0] == [] && ops[..|ops| - 1] == ops[..1];
    assert Run(done, []) == done;
    assert Run(done, ops[..1]) == b;
    assert Run(done, ops) == c;
    FoldOfStrip(username);
    DeletedUserIsGone(done, username);
    NoneLeft(b.users, username);
    FoldIdempotent(username);
    assert Last(c.users) in c.users;
    PendingExactlyWhen(c, laterName, false, now);
  }

  lemma FoldOfStrip(s: string)
    requires Fold(s) != []
    ensures Strip(s) != []
  {
  }

  lemma CompletionPromotes(a: Accounts, username: string, password: string, hash: string,
                           bootstrapName: string, disabled: bool, now: int)
    ensures var out := CompleteOnboarding(a, username, password, hash, bootstrapName, disabled, now);
            out.result.Ok? ==>
              && !out.result.value.pending
              && exists u :: u in out.state.users && RealUser(u) && u.role == "superadmin" && Fold(u.username) == Fold(username)
  {
    hide OnboardingStatus, LoadRoles, HasRole, CheckPassword, LeastName, Fold;
    if CompleteOnboarding(a, username, password, hash, bootstrapName, disabled, now).result.Err? {
      return;
    }
    var name := CheckUsername(username).value;
    FoldIdempotent(username);
    BuiltInNamesAreClean("superadmin");
    var (b, status) := OnboardingStatus(a, bootstrapName, disabled, now);
    var changed := if UserIndex(b.users, name) == |b.users|
                   then CreateUser(b, name, password, hash, "superadmin", true, None, now)
                   else UpdateUser(b, name, Changes(Some("superadmin"), Some(true), Some(password), None), hash);
    var i := UserIndex(changed.state.users, name);
    var c := changed.state.(onboarding := Onboarding(true, now, name));
    PromotedUser(b, name, password, hash, now);
    var u :| u in changed.state.users && RealUser(u) && u.role == "superadmin" && Fold(u.username) == Fold(username);
    PendingExactlyWhen(c, bootstrapName, disabled, now);
    RealUsersStay(c, bootstrapName, disabled, now);
  }

  lemma PromotedUser(b: Accounts, name: string, password: string, hash: string, now: int)
    requires CheckUsername(name).Ok?
    ensures var changed := if UserIndex(b.users, CheckUsername(name).value) == |b.users|
                           then CreateUser(b, name, password, hash, "superadmin", true, None, now)
                           else UpdateUser(b, name, Changes(Some("superadmin"), Some(true), Some(password), None), hash);
            changed.error.None? ==>
              exists u :: u in changed.state.users && RealUser(u) && u.role == "superadmin" && Fold(u.username) == Fold(name)
  {
    hide LoadRoles, HasRole, CheckPassword, Fold, CleanTenant;
    BuiltInNamesAreClean("superadmin");
    FoldIdempotent(name);
    var plain := CheckUsername(name).value;
    var i := UserIndex(b.users, plain);
    if i == |b.users| {
      var changed := CreateUser(b, name, password, hash, "superadmin", true, None, now);
      if changed.error.None? { assert Last(changed.state.users) in changed.state.users; }
    } else {
      var changed := UpdateUser(b, name, Changes(Some("superadmin"), Some(true), Some(password), None), hash);
      if changed.error.None? { assert changed.state.users[i] in changed.state.users; }
    }
  }

  lemma RealUsersStay(a: Accounts, bootstrapName: string, disabled: bool, now: int)
    requires AnyReal(a.users)
    ensures OnboardingStatus(a, bootstrapName, disabled, now).0.users == a.users
    ensures a.onboarding.completed ==> OnboardingStatus(a, bootstrapName, disabled, now).0.onboarding == a.onboarding
  {
    hide Fold, LeastName;
  }
}
