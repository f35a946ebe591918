# Beagle OS control-plane verification

A Dafny model of the parts of the Beagle OS control plane whose guarantees run over whole executions or
whole input languages: the session protocol and the account store, the seed-configuration parser, the API
router, backup retention and scheduling, the kiosk's text machinery, audit events, VM description metadata,
and a handful of small state machines (anti-affinity placement, console tokens, alerts, action queues, the
catalog lookup).

Services that update documents in place are classes whose fields are those documents; each method is proved
equal to a step of a specification, and the properties over runs are proved about that specification. Loops
of the source are loops here. Clock readings, generated tokens, password checks, archive attempts, HTTP replies
and `JSON.parse` are parameters, so every statement holds for all of their behaviours.

`dafny verify dfyconfig.toml` checks everything.

## Layout

| module | what it models |
|---|---|
| Prelude, Text, Assoc | filters, Python string operations (`strip`, `splitlines`, `lower`), ordered dictionaries |
| SessionSpec, SessionRuns | session records, what each operation does to them, and theorems over runs |
| AccountSpec, AccountRuns, AccountEffects | users, roles and onboarding documents, theorems over runs, and what edits mean to later lookups, logins and refreshes |
| ServiceRuns | accounts and sessions together, over runs of both |
| AuthSession | the service object over the four stored documents |
| SeedYaml, SeedScalars, SeedLayouts, SeedPrinter | the indentation-stack parser, the ways to write scalars and maps, and the round trips |
| Router | pattern compilation, backtracking match, dispatch |
| Calendar, BackupSpec, BackupRuns, BackupService | dates, retention, scheduling, and the service object |
| KioskScanner, KioskConfig | the embedded-JSON scanner; the shell-config writer and reader |
| Audit | redaction over JSON trees and the audit record form |
| Description, DescriptionEscapes | the description rewriter and the metadata parser; literal escapes |
| AntiAffinity, ConsoleTokens, CatalogLookup, Alerts, ActionQueue | the smaller state machines |

## Where the code differs from what it says

- A console token is documented as single-use, but the used mark is written under the token as presented
  (`beagle-host/bin/beagle_novnc_token.py:153`), so a token presented with surrounding white space is accepted
  again: `ConsoleTokens.PaddedTokenSucceedsTwice` is such a run, `SecondUseExactly` the exact condition for one
  more call, `ReusableExactly` for every continuation, and `SingleUse` the guarantee where it does not hold.
- The shell-config writer skips keys that are no identifiers; it escapes quotes and backslashes, which the reader
  does not undo (`beagle-kiosk/main.js:78`, `beagle-kiosk/main.js:212-217`); and assigning the key `__proto__` on a
  plain object stores nothing: `KioskConfig.QuoteComesBackEscaped` and `ProtoKeyIsLost` are such inputs,
  `RoundTripExactly` the exact set of configurations that survive.
- The router calls its capture class a safe subset for one path segment, but the class contains `/`
  (`beagle-host/services/api_router_service.py:40-41`), so a capture may span segments:
  `Router.CaptureSpansSegments` is such an input, `CapturesWithinSegments` the exact condition.
- Onboarding that was completed can become pending again, under a bootstrap name that is the completing user's
  own: `AccountRuns.RemovedAndBootstrapped` is such a run, `PendingAgainExactly` the exact condition, and
  `CompletedStaysCompleted` the permanence otherwise.
- `build_catalog` returns early, without de-duplicating, when the entry limit is reached
  (`beagle-kiosk/update_catalog.py:552-553`): `CatalogLookup.DuplicatesAtTheLimit` is such a call,
  `DistinctExactly` the exact condition on the games' keys and the limit.
- The description rewriter writes values as they are, the parser turns a literal backslash-n into a line break
  (`beagle-host/services/metadata_support.py:16`): `DescriptionEscapes.EscapeCutsValue` is such an update,
  `ReadsBackExactly` the exact condition.
- A disabled or deleted user cannot refresh, but a session that is only resolved outlives the account and keeps
  the role of its login: `ServiceRuns.RefusedWhileGone` and `PollingOutlivesAccount`.

## Model

| member | source | states |
|---|---|---|
| SessionRuns.DeadTokensStayDead | beagle-host/services/auth_session.py:536-705 | Over every run with a non-repeating token generator, a token once handed out that no live session carries is never carried by a live session again, as access or as refresh token. |
| SessionRuns.RevokedSessionNeverReturns | beagle-host/services/auth_session.py:536-639 | However a session came to be revoked (logout, per-user revoke, eviction, expiry), no later resolve accepts its access token and no later refresh accepts its refresh token. |
| SessionRuns.ReplacedTokenNeverReturns | beagle-host/services/auth_session.py:561-615 | The access token that a successful refresh replaced is refused by every later resolve. |
| SessionRuns.RevocationIsPermanent | beagle-host/services/auth_session.py:497-705 | No operation of any run drops a session record, changes whose it is, in which role, its refresh token or its start, or touches a revoked record in any field. |
| SessionRuns.TokensAreUnique | beagle-host/services/auth_session.py:819-823 | In every reachable state no two sessions share an access token or a refresh token, revoked ones included. |
| SessionRuns.ResolveIsLookup | beagle-host/services/auth_session.py:581-615 | In every reachable state the linear scan of resolve is one lookup in the map from access token to session: same verdict, same new state. |
| SessionRuns.RefreshIsLookup | beagle-host/services/auth_session.py:536-579 | In every reachable state the linear scan of refresh is one lookup in the map from refresh token to session: same verdict, same new state, including the revocations of expired sessions and of disabled users. |
| SessionRuns.ClocksInEveryState | beagle-host/services/auth_session.py:562-566 | With a positive clock, in every reachable state the access limit is last seen plus its lifetime, while the refresh and absolute limits are those fixed at creation. |
| SessionRuns.AcceptanceWindow | beagle-host/services/auth_session.py:909-924 | In every reachable state a session is usable if and only if it is unrevoked and now is at most min(last seen + min(idle, access lifetime), created + refresh lifetime); the absolute limit is never the deciding one. |
| SessionRuns.LoginOpensItsSession | beagle-host/services/auth_session.py:807-858 | From every reachable state: the access token a login hands out resolves if and only if neither the idle time nor a lifetime has passed since, its refresh token is accepted if and only if the user may continue and neither the idle time nor the refresh lifetime has passed, the record each hits carries the id, user, role, tenant, address and agent of that login, and neither token serves as the other. |
| SessionRuns.RefreshHandsOnTheSession | beagle-host/services/auth_session.py:536-579 | From every reachable state: the access token a refresh hands out resolves to the same session, the idle time and access lifetime counted from the refresh and the refresh lifetime still from the login, and the refresh token stays good in the same way. |
| SessionRuns.LimitsAreSane | beagle-host/services/auth_session.py:45-49 | Any configured numbers become the least sane limits nowhere below them: positive, with access at most refresh at most absolute. |
| SessionRuns.CapHoldsAlways | beagle-host/services/auth_session.py:881-907 | Over every run from the empty store with a positive cap, no case-folded user ever has more unrevoked sessions than the cap. |
| SessionRuns.LoginEvictsTheOldest | beagle-host/services/auth_session.py:881-907 | Over every run, a login evicts at most one usable session; it belongs to the same user, who was exactly at the cap, and it is the least by (last seen, created); the new session is appended unrevoked. |
| SessionRuns.EnforcedKeeps | beagle-host/services/auth_session.py:881-907 | After enforcing the cap the user's unrevoked sessions are exactly the active ones less the oldest excess, strictly fewer than the cap. |
| SessionSpec.SortedActiveProperties | beagle-host/services/auth_session.py:887-904 | The eviction order lists each usable session of the user exactly once, sorted by (last seen, created) with ties in list order. |
| SessionSpec.SortByAgeSorts | beagle-host/services/auth_session.py:899-904 | The sort by (last seen, created) is sorted and stable. |
| AuthSession.AuthSessionService.constructor | beagle-host/services/auth_session.py:24-56 | A service over an empty user and session store starts with sane limits and account integrity, whatever roles document is on disk. |
| AuthSession.AuthSessionService.EnforceSessionLimit | beagle-host/services/auth_session.py:881-907 | The scan, sort and pop loop computes the specified list: expired sessions of the user and the oldest excess are revoked, all others untouched. |
| AuthSession.AuthSessionService.IssueSession | beagle-host/services/auth_session.py:807-858 | Issuing enforces the cap and appends the new record: the login step of the protocol. |
| AuthSession.AuthSessionService.Login | beagle-host/services/auth_session.py:497-534 | Denied if and only if the name, user, enabled mark or password fails; a wrong one-time code changes nothing; otherwise the store takes a login step for the stored user under a non-empty name. |
| AuthSession.AuthSessionService.RefreshSession | beagle-host/services/auth_session.py:536-579 | The scan with its three-way exit takes exactly the refresh step and answers if and only if the protocol accepts, with the new access token, the same refresh token, the session's own user and that user's role of the moment. |
| AuthSession.AuthSessionService.ResolveAccessToken | beagle-host/services/auth_session.py:581-615 | The scan with its dirty flag takes exactly the resolve step, answers if and only if the protocol accepts, and reports the session's own user, id and role of login, with the tenant its user has at the moment. |
| AuthSession.AuthSessionService.RevokeByToken | beagle-host/services/auth_session.py:617-639 | Every live session with either token is revoked and nothing else changes; true is returned if and only if there was one. |
| AuthSession.AuthSessionService.RevokeUserSessions | beagle-host/services/auth_session.py:686-705 | Every live session of the case-folded user is revoked and nothing else changes; the count returned is the number of them. |
| AuthSession.AuthSessionService.LoadRolesDoc | beagle-host/services/auth_session.py:934-975 | Loading cleans the stored roles, adds missing built-in ones, and writes the result back. |
| AuthSession.AuthSessionService.RoleExists | beagle-host/services/auth_session.py:977-984 | A role exists if and only if its folded name is not empty and in the loaded document; an empty one does not load it. |
| AuthSession.AuthSessionService.CreateAccount | beagle-host/services/auth_session.py:168-216 | The method is the creation step of account runs, with every error, and keeps integrity. |
| AuthSession.AuthSessionService.UpdateAccount | beagle-host/services/auth_session.py:218-278 | The in-place update is the update step of account runs, with every error, and keeps integrity; a failed check leaves the users untouched. |
| AuthSession.AuthSessionService.DeleteAccount | beagle-host/services/auth_session.py:280-295 | The rebuilt list is the deletion step and keeps integrity; true is returned if and only if the users changed. |
| AuthSession.AuthSessionService.EnsureBootstrap | beagle-host/services/auth_session.py:82-102 | The method is the bootstrap step of account runs and keeps integrity. |
| AuthSession.AuthSessionService.PutRole | beagle-host/services/auth_session.py:318-338 | The method is the role step of account runs, with every error, and keeps integrity. |
| AuthSession.AuthSessionService.DropRole | beagle-host/services/auth_session.py:340-362 | The two rewriting loops are the deletion step with demotion and keep integrity; true is returned if and only if a custom role was there. |
| AuthSession.AuthSessionService.QueryOnboarding | beagle-host/services/auth_session.py:373-457 | Reading the status, with the repairs it makes to both documents on the way, is the status step of account runs and keeps integrity. |
| AuthSession.AuthSessionService.FinishOnboarding | beagle-host/services/auth_session.py:459-495 | Completing, built from status, creation or update, and status again, is the completion step of account runs, with every error, and keeps integrity. |
| AccountRuns.IntegrityOverRuns | beagle-host/services/auth_session.py:82-495 | Over every run of create, update, delete, role edits, bootstrap, status and completion, from any roles document: user names are unique ignoring case, every stored user's role exists, and every built-in role exists. |
| AccountRuns.StepKeeps | beagle-host/services/auth_session.py:82-495 | Each of the eight account operations keeps unique names and existing roles, from any document that has them. |
| AccountRuns.DeleteRoleKeeps | beagle-host/services/auth_session.py:340-362 | Deleting a role keeps integrity: its holders are demoted to a role that exists. |
| AccountRuns.SaveRoleKeeps | beagle-host/services/auth_session.py:318-338 | Saving a role keeps integrity and drops no role that any user holds. |
| AccountRuns.DeletedUserIsGone | beagle-host/services/auth_session.py:280-295 | After deletion no lookup finds the name in any case, and exactly the users of other names remain. |
| AccountRuns.DeletedRoleIsGone | beagle-host/services/auth_session.py:340-362 | A deleted custom role does not come back on loading; exactly its holders become viewers and no other user changes. |
| AccountEffects.CreatedUser | beagle-host/services/auth_session.py:168-216 | Creation succeeds if and only if the name is good and new, the password has eight characters and the role exists; the name, in any case, is then found with the role, hash, enabled mark, tenant and time of the call, and everybody else as before. |
| AccountEffects.UpdatedUser | beagle-host/services/auth_session.py:218-278 | An update succeeds if and only if the user exists, a named role exists and a named password is long enough; the user is then found with exactly the named fields changed and no bootstrap account any more, and everybody else as before. |
| AccountEffects.CreatedUserLogsIn | beagle-host/services/auth_session.py:497-534 | A created user passes the check before login if and only if created enabled and the stored hash accepts the password. |
| AccountEffects.UpdatedUserLogsIn | beagle-host/services/auth_session.py:497-534 | After an update the user passes that check if and only if enabled, local, and the hash of the new password accepts, or the old one when none was named; nobody else is affected. |
| AccountEffects.RefreshReportsNewRole | beagle-host/services/auth_session.py:552-579 | After a role change every refresh of the user's sessions reports the new role, whatever role they were opened with. |
| AccountEffects.RefreshReportsRole | beagle-host/services/auth_session.py:552-579 | A refresh reports the stored role of the user, and the role of login when no such user is found. |
| AccountEffects.SavedRole | beagle-host/services/auth_session.py:318-371 | Saving succeeds if and only if the name is proper and not built in; on the next loading the role has exactly the non-blank permissions of the call, stripped, and every other role the permissions it had. |
| AccountEffects.MissingRolesAreDefault | beagle-host/services/auth_session.py:934-975 | On loading, a stored role keeps its permissions, and a built-in role that is not stored has those of the built-in table. |
| AccountEffects.StatusEffects | beagle-host/services/auth_session.py:373-457 | A status check removes users only when bootstrap accounts are disabled and nobody else is enabled, and then exactly the bootstrap accounts; it completes onboarding in the name of the enabled non-bootstrap user who comes first, clears a completion that is pending again, and otherwise leaves the document alone; the answer reports the documents as they are afterwards. |
| AccountEffects.BootstrapNameIs | beagle-host/services/auth_session.py:381 | A blank bootstrap name stands for admin, and any other is compared in its folded form. |
| AccountEffects.BlanksAreDropped | beagle-host/services/auth_session.py:527-530 | A blank tenant is none and a blank role is viewer; every other one loses exactly the blanks around it. |
| AccountEffects.CodeIsAskedExactly | beagle-host/services/auth_session.py:523-526 | A one-time code is asked for if and only if a secret is stored that is not all blank. |
| AccountRuns.PendingExactlyWhen | beagle-host/services/auth_session.py:398-451 | Onboarding is pending if and only if no enabled non-bootstrap user exists and it was never completed, or only the bootstrap account completed it and is still there and allowed. |
| AccountRuns.CompletedStaysCompleted | beagle-host/services/auth_session.py:373-495 | A successful completion is not pending and leaves an enabled superadmin of that name who is no bootstrap account. Through any later run asked under other bootstrap names, deletion of every user included, the onboarding document stays as written and is never pending; under any name it is not pending while an enabled non-bootstrap user exists. |
| AccountRuns.PendingAgainExactly | beagle-host/services/auth_session.py:373-495 | After a successful completion some run under a bootstrap name ends pending if and only if that name is the completing user's own. |
| AccountRuns.RemovedAndBootstrapped | beagle-host/services/auth_session.py:82-495 | The run that does it: delete the completing user, bootstrap the name again, and the status is pending. |
| AccountSpec.LoadedRoles | beagle-host/services/auth_session.py:934-975 | Whatever is on disk, loading yields every built-in role and only normalised roles, and loading again changes nothing. |
| ServiceRuns.SessionsOfRun | beagle-host/services/auth_session.py:497-705 | In a run of session and account operations the sessions are those of the session operations alone, each refresh asked with the users of its moment, so every theorem of SessionRuns carries over. |
| ServiceRuns.AccountsOfRun | beagle-host/services/auth_session.py:82-495 | In a run of session and account operations the accounts are those of the account operations alone, so every theorem of AccountRuns carries over. |
| ServiceRuns.GoneStays | beagle-host/services/auth_session.py:82-495 | A missing or disabled account comes back only by an operation on that very name: no other creation, update, deletion, role edit, bootstrap, status check or completion brings it back. |
| ServiceRuns.DeletedIsGone | beagle-host/services/auth_session.py:280-295 | After deletion the name's sessions may not be continued. |
| ServiceRuns.DisabledIsGone | beagle-host/services/auth_session.py:218-278 | After an update that disables the account the name's sessions may not be continued. |
| ServiceRuns.RefusedWhileGone | beagle-host/services/auth_session.py:552-560 | Through any run after the account of a session's user went, until an operation on that name, no refresh of the session succeeds, and the first attempt revokes exactly that session. |
| ServiceRuns.RevokedForGood | beagle-host/services/auth_session.py:536-639 | A session revoked at any point of a run of session and account operations is never accepted again through either token, even when its user is created or enabled again. |
| ServiceRuns.PollingOutlivesAccount | beagle-host/services/auth_session.py:581-615 | Resolving never asks the accounts: a session polled in time stays alive in the role of its login, whatever is done to the accounts, deletion and demotion included, and it resolves exactly until min(last poll + min(idle, access lifetime), created + refresh lifetime). |
| ServiceRuns.ReachableSessions | beagle-host/services/auth_session.py:807-858 | The premises of that theorem hold in every reachable state of the whole service. |
| SeedYaml.ShapeOnEveryInput | server-installer/seed_config_parser.py:128-181 | After every prefix of any input, the indents on the stack strictly increase, the stack and the list of last keys have equal length, and nested maps only point to later ones, so the result is a tree. |
| SeedYaml.StepShape | server-installer/seed_config_parser.py:132-179 | Each line keeps that shape and never removes a map. |
| SeedYaml.SeedConfigParser.ParseYaml | server-installer/seed_config_parser.py:119-187 | The loop over pushes, pops and in-place fills returns the specified tree for every text. |
| SeedYaml.SeedConfigParser.ParseLine | server-installer/seed_config_parser.py:132-179 | One turn of the loop is one step of the specification and keeps the shape. |
| SeedYaml.SeedConfigParser.AttachItem | server-installer/seed_config_parser.py:136-151 | The upward walk attaches the item to the innermost level with a last key, turning a placeholder map into a list. |
| SeedScalars.CoerceExactly | server-installer/seed_config_parser.py:189-205 | A text is read as a value if and only if it is a way to write it: a truth word in any case, a decimal numeral, a string in single or double quotes, or a bare string that is none of these; nothing else is ever read. |
| SeedScalars.ParseIntExactly | server-installer/seed_config_parser.py:195-198 | A text is read as an integer if and only if it is its decimal numeral, possibly with a sign, leading zeros and single underscores between digits. |
| SeedLayouts.LayoutReadsBack | server-installer/seed_config_parser.py:119-205 | Any text whose lines, blank ones and comments aside, lay out a nested map parses to exactly that map, order included: strings bare or in either kind of quotes, scalars and list items alike, any blanks around keys and values, maps indented by two or more, list items at any indent. |
| SeedLayouts.NoiseChangesNothing | server-installer/seed_config_parser.py:183-187 | A blank line or a comment put in anywhere, in whatever text, changes nothing. |
| SeedLayouts.KeyLineSteps | server-installer/seed_config_parser.py:132-179 | A line with a key and a text, blanks wherever they may stand, acts on the map at its indent under exactly that key and text. |
| SeedPrinter.ParseUndoesPrint | server-installer/seed_config_parser.py:119-205 | An instance that prints: parsing the two-space layout of any nested map with proper keys over ints, bools, one-line strings in double quotes, maps (also empty) and non-empty scalar lists returns exactly that map, order included. |
| SeedLayouts.ReadDoc | server-installer/seed_config_parser.py:128-181 | Reading the lines of any layout of a map inside any parser state fills exactly the map on top of the stack and leaves every outer level as it was. |
| SeedPrinter.ScalarReadsBack | server-installer/seed_config_parser.py:189-205 | Each printed scalar is coerced back to the same value of the same kind. |
| SeedLayouts.DenotesResolves | server-installer/seed_config_parser.py:124-181 | What the linked maps denote is the nested map they resolve to. |
| Router.MatchExactly | beagle-host/services/api_router_service.py:50-71 | A path matches if and only if it is the pattern with each parameter replaced by a non-empty run of segment characters; the captures returned are such runs, and the greediest, earliest parameter first. |
| Router.MatchSound | beagle-host/services/api_router_service.py:50-71 | The captures of a successful match rebuild the path, up to one final newline. |
| Router.MatchComplete | beagle-host/services/api_router_service.py:50-71 | Backtracking misses no assignment of captures that fits, and answers with the lexicographically longest. |
| Router.GreediestIsUnique | beagle-host/services/api_router_service.py:50-71 | No two assignments of captures are each the greedier, so the description determines the match. |
| Router.SegmentAlphabet | beagle-host/services/api_router_service.py:40-41 | A captured value may hold exactly the identifier characters and nine others. |
| Router.ParamsRebuildPath | beagle-host/services/api_router_service.py:50-71 | For a newline-free path, substituting the returned parameters by name into the pattern rebuilds the path. |
| Router.DispatchedParamsRebuildPath | beagle-host/services/api_router_service.py:133-146 | The same for the parameters that dispatch hands to a handler. |
| Router.CapturesWithinSegments | beagle-host/services/api_router_service.py:40-71 | The captures of a match are all free of slashes if and only if the path has exactly as many slashes as the pattern's literals. |
| Router.DispatchedParamsWithinSegments | beagle-host/services/api_router_service.py:133-146 | The same for the parameters that dispatch hands to a handler. |
| Router.CaptureSpansSegments | beagle-host/services/api_router_service.py:40-71 | At a concrete input: `/:v` matches `/a/b` with the capture `a/b`. |
| Router.TokensSpellPattern | beagle-host/services/api_router_service.py:50-62 | Splitting a pattern into literals and parameters loses nothing, spelled out again it is the pattern, if and only if no backslash stands before a colon in it. |
| Router.TokensExactly | beagle-host/services/api_router_service.py:39-62 | A pattern without an escaped colon splits in one way only: into the token list that spells it and in which every parameter has a whole identifier as its name, ending where the identifier ends, and no literal colon stands before a letter. |
| Router.TokenizeUndoesRender | beagle-host/services/api_router_service.py:39-62 | Every such token list is read back from the pattern it spells. |
| Router.RefusedExactly | beagle-host/services/api_router_service.py:50-62 | A pattern is refused if and only if a name follows a backslash and a colon somewhere in it, or two parameters have the same name. |
| Router.ApiRouterService.Register | beagle-host/services/api_router_service.py:92-101 | A pattern that compiles is appended with its compiled form and upper-cased method; one that does not leaves the routes alone. |
| Router.UpperIsUpper | beagle-host/services/api_router_service.py:44-48 | The stored method differs from the given one in case only and has no small letters. |
| Router.ApiRouterService.Dispatch | beagle-host/services/api_router_service.py:112-150 | The first registered route matching path and method is called with its captures, and there is one whenever a handler is called; 405 if and only if only other methods match, 404 if and only if no route matches the path. |
| Router.ApiRouterService.HandlesRequest | beagle-host/services/api_router_service.py:152-158 | True if and only if dispatch would call a handler. |
| Router.ApiRouterService.HandlesAnyMethod | beagle-host/services/api_router_service.py:160-165 | True if and only if dispatch would not answer 404. |
| Calendar.OrdinalFollowsCalendar | beagle-host/services/backup_service.py:881-882 | Gregorian day numbers order valid dates exactly as the calendar does, and distinct dates get distinct numbers. |
| Calendar.OrdinalCountsDays | beagle-host/services/backup_service.py:881-882 | Each day's number is one more than that of the day before, over month ends, leap days and year ends. |
| Calendar.MonthsAlternate | beagle-host/services/backup_service.py:881-882 | The lengths of the months: long and short ones alternate up to July and again from August on, and February takes what is left of the year. |
| Calendar.OrdinalIsPlace | beagle-host/services/backup_service.py:881-882 | A date is the day its number says, counted through the calendar from the first day of year 1 as number 1. |
| Calendar.DifferenceCountsDays | beagle-host/services/backup_service.py:881-882 | The difference of two day numbers is how often the page of the calendar is turned from one date to the other. |
| Calendar.FromIsoExactly | beagle-host/services/backup_service.py:881-884 | A text names a day if and only if it is how that valid date is written. |
| Calendar.IsoOrder | beagle-host/services/backup_service.py:265 | Comparing ISO dates as strings is comparing them as dates. |
| Calendar.LaterReadingLaterDay | beagle-host/services/backup_service.py:881-882 | A clock reading that is not smaller as a string never has a smaller day number. |
| BackupSpec.PruneSplits | beagle-host/services/backup_service.py:841-905 | Kept and pruned jobs interleave to the original job records, order preserved, nothing lost or doubled. |
| BackupSpec.AgeCountsDays | beagle-host/services/backup_service.py:881-882 | A job's age is the number of calendar days from its creation date to today. |
| BackupSpec.OutlivedFromThatDayOn | beagle-host/services/backup_service.py:841-890 | A successful job in scope may be removed from the day on that lies, counted through the calendar, as many days after its creation as its policy says, and not before. |
| BackupSpec.GovernedByItsOwn | beagle-host/services/backup_service.py:862-872 | A job is governed by the policy of its own pool, or of its own machine however many zeros its number is written with, and by none if and only if it names neither. |
| BackupSpec.RetentionIsNearest | beagle-host/services/backup_service.py:90-95 | Retention is the number of days between one and ten years nearest to the one stored, and the default policy's when none can be read. |
| BackupSpec.OutlivedStays | beagle-host/services/backup_service.py:841-905 | A job that retention may remove at one reading may be removed at every later one. |
| BackupSpec.PruneComposes | beagle-host/services/backup_service.py:819-905 | Pruning at t1 and then at a later t2 leaves the same jobs as pruning at t2 alone. |
| BackupRuns.SecondRunRetriesFailures | beagle-host/services/backup_service.py:505-524 | While the clock stays in one hour: a scheduler run backs up each due enabled scope once and appends ended jobs only; of the policies it moves only last-backup marks, exactly those of the due policies whose job succeeded; and a second run backs up exactly the scopes whose first job failed. |
| BackupRuns.BackupEffect | beagle-host/services/backup_service.py:437-503 | Whatever the archive step does, the job ends as success or error with a finish time and is appended, and the last-backup mark of that one policy moves exactly on success. |
| BackupRuns.DueWithinHour | beagle-host/services/backup_service.py:258-266 | Within an hour due-ness does not depend on the minute, and a policy backed up in that hour is not due; when it becomes due again is DueByCadence. |
| BackupRuns.DueByCadence | beagle-host/services/backup_service.py:257-266 | A disabled policy is never due, an enabled one always before its first backup; afterwards, by the dates and hours read from the texts, a daily one if and only if the day differs, a weekly one if and only if today is later, an hourly one if and only if the day or hour differs, an unknown cadence counting as daily. |
| BackupRuns.RunsWhatIsDue | beagle-host/services/backup_service.py:505-524 | A scheduler run backs up a scope if and only if its policy is due at the reading the run began with. |
| BackupRuns.DueAgainOnALaterDay | beagle-host/services/backup_service.py:437-524 | Over every run of scheduler runs and requested backups, whatever the archives yield: an enabled policy that was last backed up on an earlier day, if ever, is among the scopes of the next scheduler run of a later day, on every cadence. |
| BackupRuns.StampReads | beagle-host/services/backup_service.py:257-266 | A clock reading written as date, T and hour has that day and that hour. |
| BackupRuns.Sweep | beagle-host/services/backup_service.py:505-524 | Sweeping one policy table backs up its due entries in order; an entry that was not due is unchanged, a due one keeps everything but its last-backup mark, which moves exactly when its job succeeded; what is due afterwards is exactly the failed ones. |
| BackupRuns.OneRun | beagle-host/services/backup_service.py:505-524 | One scheduler run over both tables: each due scope once, marks moved exactly on success, nothing else changed, and what is due later in the hour is what failed. |
| BackupService.BackupService.RunBackupNow | beagle-host/services/backup_service.py:437-503 | The try, except and finally path with its in-place edits of job and policy is the pure backup, with both argument errors. |
| BackupService.BackupService.RunScheduledBackups | beagle-host/services/backup_service.py:505-524 | The two loops over policy snapshots, each step reloading and saving, are the pure scheduler run. |
| BackupService.BackupService.PruneOldSnapshots | beagle-host/services/backup_service.py:819-905 | The loop keeps and prunes exactly what retention says, attempts deletion of exactly the pruned archives in order, and saves only when something was pruned. |
| BackupService.BackupService.UpdatePoolPolicy | beagle-host/services/backup_service.py:151-161 | An empty id is refused; otherwise exactly that pool's policy becomes the sanitised one, a named retention ending between 1 and 3650 days, and stored policies that are all normal stay so. |
| BackupService.BackupService.UpdateVmPolicy | beagle-host/services/backup_service.py:171-179 | The same for the policy stored under a VM's decimal number. |
| BackupService.SanitizedIsNormal | beagle-host/services/backup_service.py:83-139 | Sanitising makes a named retention a number between 1 and 3650, leaving one in that range alone, keeps a normal policy normal, and changes nothing when the payload names nothing. |
| BackupService.SanitizedTakesTheNamed | beagle-host/services/backup_service.py:102-139 | A payload sets what it names and keeps the rest, a blank last-backup mark naming none; normalising a schedule never changes when the policy is due. |
| BackupService.BackupsKeepNormal | beagle-host/services/backup_service.py:437-524 | No sequence of backups stores a policy with an unknown schedule or a retention outside 1 to 3650 days. |
| KioskScanner.ExtractBalancedJson | beagle-kiosk/main.js:470-506 | The result is the shortest prefix from the start whose brace depth outside strings returns to zero, or empty when there is none. |
| KioskScanner.ExtractedIsUnique | beagle-kiosk/main.js:470-506 | That description determines the result. |
| KioskScanner.PassesJson | beagle-kiosk/main.js:470-506 | Scanning any JSON value inside an open brace ends in the state it began in and never closes that brace, whatever its strings and escapes contain. |
| KioskScanner.ExtractsEmbeddedObject | beagle-kiosk/main.js:470-506 | For any object in the grammar of sections 4 and 7 of RFC 8259, white space included, placed anywhere in any text, the scanner started at its first brace returns exactly its text. |
| KioskScanner.MarkersDoNotOverlap | beagle-kiosk/main.js:511-520 | Two occurrences of the payload marker never overlap, so skipping its length skips no other occurrence. |
| KioskScanner.ParseEmbeddedPanelPayloads | beagle-kiosk/main.js:508-532 | The search loop terminates and yields the parsed payload of every marker occurrence, in order. |
| KioskScanner.EmbeddedPanelIsFound | beagle-kiosk/main.js:508-532 | Every panel object embedded anywhere in the text is among the payloads, if it parses. |
| KioskConfig.SerializeShellConfig | beagle-kiosk/main.js:81-90 | The loop writes one line per identifier key, in order, and a final newline. |
| KioskConfig.ParseShellConfig | beagle-kiosk/main.js:199-221 | The loop reads assignments line by line, later ones overriding earlier ones, and ignores everything else. |
| KioskConfig.RoundTripExactly | beagle-kiosk/main.js:70-221 | Any configuration comes back unchanged, order included, if and only if every key is an identifier other than `__proto__` and every value is free of double quotes, backslashes and line terminators. |
| KioskConfig.QuoteComesBackEscaped | beagle-kiosk/main.js:70-221 | At a concrete input: a value of one double quote comes back with a backslash in front. |
| KioskConfig.ProtoKeyIsLost | beagle-kiosk/main.js:199-221 | At a concrete input: the entry under `__proto__` is written and not read back. |
| KioskConfig.TripEchoes | beagle-kiosk/main.js:70-221 | For one-line values the trip returns every entry with its value as escaped by the writer. |
| KioskConfig.QuoteReadsBack | beagle-kiosk/main.js:70-79 | A quoted one-line value, read as the reader unquotes it, is the escaped value, with blanks and single quotes intact. |
| KioskConfig.ReadLinesReadable | beagle-kiosk/main.js:199-221 | Every file reads as a map of identifier keys to values without line terminators. |
| KioskConfig.ReadLineExactly | beagle-kiosk/main.js:199-221 | A line assigns a value to a key if and only if, blanks aside, it is the key, an equals sign, and the value in quotes of either kind or bare, all before any line terminator. |
| KioskConfig.ShellReadsValue | beagle-kiosk/main.js:70-79 | A shell that reads what the writer put between double quotes gets the value itself, and no quote in it ends it early. |
| KioskConfig.BareExactly | beagle-kiosk/main.js:70-79 | A value is written without quotes if and only if it is not empty and made of identifier characters and four signs. |
| KioskConfig.JsSpaceExactly | beagle-kiosk/main.js:201-202 | The blanks taken off are Python's, less the separator controls and the next-line character, plus the byte-order mark. |
| Audit.RedactsExactly | beagle-host/services/audit_pii_filter.py:15-24 | Position by position: a node with no sensitive key on its path keeps its kind, size, keys and scalar value; the first one under a sensitive key becomes the redaction mark. |
| Audit.SensitiveExactly | beagle-host/services/audit_pii_filter.py:7-12 | A field is sensitive if and only if password, secret, token or key stands somewhere in its name, in any case. |
| Audit.RedactAddsNothing | beagle-host/services/audit_pii_filter.py:15-24 | Every position of the result is a position of the input. |
| Audit.RedactIdempotent | beagle-host/services/audit_pii_filter.py:15-24 | Redacting twice is redacting once, for every JSON tree and field name. |
| Audit.RecordRoundTrip | core/audit_event.py:60-146 | For every event built by create, reading back its record gives the same event, all fifteen fields. |
| Audit.CreatedIsNormal | core/audit_event.py:61-98 | Every created event is in the normal form the reader leaves alone: trimmed texts, known result, redacted values. |
| Audit.CreatedSays | core/audit_event.py:61-98 | Each text of an event is that of the first of its detail fields that is not silent, without the blanks around it: who acted of three fields, where from of two; the action falls back to unknown; the result is success, rejected or failure by the word given for it, in any case. |
| Audit.MetadataExactly | core/audit_event.py:61-82 | A detail is found in the event's metadata, and unchanged, if and only if the event has no field of its own for it. |
| Audit.ReadsFields | core/audit_event.py:101-146 | Writing and reading any event in normal form is the identity. |
| Audit.EventFieldsAreOpen | beagle-host/services/audit_pii_filter.py:10-12 | The two field names under which old and new values are redacted are not themselves sensitive, so the values are not masked wholesale. |
| Description.RewriteThenParse | scripts/repair-vm-stream-profile.py:22-43 | For a description and updates without literal escapes: after rewriting, parsing gives each updated key its stripped new value and every other key what it had before. |
| DescriptionEscapes.ReadsBackExactly | scripts/repair-vm-stream-profile.py:22-43 | For an escape-free description and proper updates, every updated key reads back its stripped value if and only if no update, key or value, holds a literal backslash-n. |
| DescriptionEscapes.EscapedValueIsLost | beagle-host/services/metadata_support.py:14-26 | A value with a literal escape never reads back, for any description and key. |
| DescriptionEscapes.EscapedKeyIsLost | beagle-host/services/metadata_support.py:14-26 | A key with a literal escape is not found after rewriting, when no value has an escape. |
| DescriptionEscapes.ParsedValueFree | beagle-host/services/metadata_support.py:14-26 | No parsed value holds a literal backslash-n, whatever the description. |
| DescriptionEscapes.EscapeCutsValue | scripts/repair-vm-stream-profile.py:22-43 | At a concrete input: setting a key to the four characters a, backslash, n, b reads back a. |
| Description.RewriteTwice | scripts/repair-vm-stream-profile.py:22-43 | A second rewrite with the same updates changes nothing, for every description. |
| Description.RewriteSplits | scripts/repair-vm-stream-profile.py:26-42 | The lines of the rewritten text are the rewritten lines, without trailing blank ones and trailing blanks of the last. |
| Description.RewriteDescription | scripts/repair-vm-stream-profile.py:22-43 | The two loops compute the specified text; the flag says whether it differs. |
| Description.ParseDescriptionMeta | beagle-host/services/metadata_support.py:14-26 | The loop computes the specified dictionary, first occurrence of a key winning. |
| Description.MetaLooksUp | beagle-host/services/metadata_support.py:17-26 | What the dictionary holds for a key is the value of the first line that carries the key. |
| Description.ItemIsParsed | beagle-host/services/metadata_support.py:18-23 | Stripping a line before or after splitting it at its first colon makes no difference, so parser and rewriter see the same key. |
| AntiAffinity.OnlineNodes | beagle-host/services/anti_affinity_scheduler.py:41-56 | The names returned are exactly the online nodes outside maintenance, sorted. |
| AntiAffinity.OccupiedNodes | beagle-host/services/anti_affinity_scheduler.py:58-82 | The set returned is exactly the nodes of the group's other members whose configuration can be read. |
| AntiAffinity.PickNode | beagle-host/services/anti_affinity_scheduler.py:84-110 | The lexicographically least eligible unoccupied node, or the error that says why there is none. |
| AntiAffinity.PickIsUnique | beagle-host/services/anti_affinity_scheduler.py:84-110 | That description determines the answer, error included. |
| AntiAffinity.CheckPlacement | beagle-host/services/anti_affinity_scheduler.py:112-132 | Accepted if and only if no other member of the group is on the node; the occupied nodes are reported sorted. |
| AntiAffinity.PickedIsAccepted | beagle-host/services/anti_affinity_scheduler.py:84-132 | The placement check accepts every node the picker chooses. |
| AntiAffinity.SpreadOverRuns | beagle-host/services/anti_affinity_scheduler.py:84-110 | Group members that start on pairwise distinct nodes stay so through any sequence of placements, for all groups at once and whatever nodes come and go. |
| AntiAffinity.PlacementKeepsSpread | beagle-host/services/anti_affinity_scheduler.py:84-110 | One placement, moving or adding a VM or failing, keeps the members distinct. |
| AntiAffinity.PlacementsFitExactly | beagle-host/services/anti_affinity_scheduler.py:84-110 | For a fixed node set, new members all find a place if and only if there are at most as many as eligible nodes without a member. |
| ConsoleTokens.BeagleTokenFile.Lookup | beagle-host/bin/beagle_novnc_token.py:122-156 | The call answers and leaves the store as specified: pruned, and the accepted entry marked used under the presented token. |
| ConsoleTokens.SingleUse | beagle-host/bin/beagle_novnc_token.py:122-156 | Over every run in which no token is issued twice, whatever else is presented: once a token was accepted in its own stripped form, no presentation of it is accepted again. |
| ConsoleTokens.ReusableExactly | beagle-host/bin/beagle_novnc_token.py:122-156 | After an accepted lookup, some continuation that issues no token twice has another presentation of the token accepted if and only if the first was not its own stripped form. |
| ConsoleTokens.SpentForGood | beagle-host/bin/beagle_novnc_token.py:132-156 | A stripped token that is gone or used stays so for the rest of a run that does not issue it again, whatever is presented. |
| ConsoleTokens.SecondUseExactly | beagle-host/bin/beagle_novnc_token.py:139-154 | After a token was accepted, any presentation of it, padded or not, is accepted again while young enough if and only if the first presentation was not its own stripped form. |
| ConsoleTokens.PaddedTokenSucceedsTwice | beagle-host/bin/beagle_novnc_token.py:139-154 | At a concrete run: a token issued once and presented twice with a blank in front is accepted both times. |
| ConsoleTokens.IssueProperties | beagle-host/services/vm_console_access.py:292-315 | Issuing leaves the new token unused and fresh, and of the others exactly those that were unused and young enough. |
| ConsoleTokens.AcceptedWithinLimit | beagle-host/bin/beagle_novnc_token.py:109-116 | An accepted token was stored, unused, and no older than the limit. |
| ConsoleTokens.LookupCleans | beagle-host/bin/beagle_novnc_token.py:128-156 | After any call no entry is left that had expired when it began, and at most one is used: the one just accepted. |
| CatalogLookup.SearchGmgHits | beagle-kiosk/update_catalog.py:303-329 | For every pattern of HTTP failures the recursion ends within 2n-1 requests; each game is settled by exactly one of them, and its slot is that request's answer at the game's own offset, or empty when it was asked alone and refused; only another exception leaves no result. |
| CatalogLookup.SelectGmgMatch | beagle-kiosk/update_catalog.py:401-413 | The first hit of maximal score, or none if and only if every score is below 500. |
| CatalogLookup.BuildCatalog | beagle-kiosk/update_catalog.py:531-560 | Before de-duplication entry k is for game k with the best match among its own hits, one entry per game up to the limit. The returned keys are distinct if and only if there is no limit, there are fewer games than the limit, or the keys of the first games up to the limit are distinct. |
| CatalogLookup.DistinctExactly | beagle-kiosk/update_catalog.py:552-560 | The same condition, on the games and the limit alone, for any list of entries in game order: duplicates are removed exactly when the limit was not reached. |
| CatalogLookup.DuplicatesAtTheLimit | beagle-kiosk/update_catalog.py:552-560 | At a concrete call: two games of one key and a limit of two, and both are returned. |
| CatalogLookup.Dedupe | beagle-kiosk/update_catalog.py:555-560 | The loop over a seen-dictionary keeps exactly the first item of each key. |
| CatalogLookup.DedupedInOrder | beagle-kiosk/update_catalog.py:555-560 | Kept items have distinct keys, are the first of their key, and stay in order. |
| CatalogLookup.DedupedCovers | beagle-kiosk/update_catalog.py:555-560 | Every key of the input is among the kept items. |
| Alerts.CheckProperties | beagle-host/services/alert_service.py:160-195 | With at most one open alert per device and rule before, a check keeps it so, leaves every enabled rule whose threshold a report on its metric reaches with an open alert, and fires only where none was open, each alert with the rule, metric, value, threshold and severity that caused it. |
| Alerts.FireRulesProperties | beagle-host/services/alert_service.py:168-192 | The same for one report. |
| Alerts.OneOpenOverRuns | beagle-host/services/alert_service.py:80-233 | Through every run of checks, resolutions and rule edits there is at most one open alert per device and rule, and no event is lost, changed other than by its resolution, or opened again. |
| Alerts.AlertService.CheckAnomalies | beagle-host/services/alert_service.py:160-195 | The nested loops take the check step of the runs: exactly the specified alerts are appended, the one-open invariant is kept, and earlier events stay as they were. |
| Alerts.AlertService.CheckReport | beagle-host/services/alert_service.py:168-192 | The inner loop, re-scanning the growing event list, appends exactly the specified alerts. |
| Alerts.AlertService.ResolveAlert | beagle-host/services/alert_service.py:226-233 | The first unresolved event of that id is resolved, nothing else changes, and none becomes open again. |
| Alerts.AlertService.FindOpenAlert | beagle-host/services/alert_service.py:251-257 | True if and only if there is an unresolved event for the device and rule. |
| Alerts.AlertService.DeleteRule | beagle-host/services/alert_service.py:92-97 | The rule is gone, every other rule is found as before and in the same order; the answer says whether it was there. |
| Alerts.AlertService.UpdateRule | beagle-host/services/alert_service.py:99-104 | The named fields of a known rule take their new values and its others keep theirs; every other rule and the order stay; an unknown rule is reported and nothing changes. |
| Alerts.AlertService.AddRule | beagle-host/services/alert_service.py:80-83 | The rule is found under its id afterwards, every other rule as before, and rules keep the order in which their ids first came. |
| Assoc.SameDictionary | beagle-host/services/alert_service.py:80-104 | Lookups and key order determine a dictionary, so the rule edits' contracts leave nothing of the new rules open. |
| ActionQueue.ActionQueueService.QueueAction | beagle-host/services/action_queue.py:47-68 | The action is appended to its VM's file, numbered by its place; in every file what was delivered followed by what is pending is what was queued, in order. |
| ActionQueue.ActionQueueService.DequeueActions | beagle-host/services/action_queue.py:88-91 | The whole pending file is delivered and emptied, the delivery ledger grows by it, other files are untouched, and the batch's ids are pairwise distinct. |
| ActionQueue.ActionQueueService.QueueBulkActions | beagle-host/services/action_queue.py:70-86 | Each requested VM that is known gets one action however often it is named; every queue file grows by exactly its own actions, each numbered by its place there. |
| ActionQueue.PendingIdsDistinct | beagle-host/services/action_queue.py:54-55 | Pending ids are pairwise distinct whatever the clock did and whichever VMs share the file. |
| ActionQueue.EndingIsUnique | beagle-host/services/action_queue.py:55 | The number at the end of an id can be read off it, whatever the node is called. |

## Left out

- Text: case mapping and digits are those of ASCII; white space and line breaks are Python's (JavaScript's in the kiosk modules).
- Sessions: LDAP shadow users, geo routing and one-time-code enrolment are not modelled; password and code checks are parameters; stored documents are those the service wrote itself, so lists hold records only.
- Sessions: `list_active_sessions` and `revoke_session_by_jti` read fields that issuing never writes.
- SeedYaml.SeedConfigParser.ParseYaml: `int` is read without Python's limit on the number of digits and without non-ASCII digits; `_build` and `validate`, which pick fields from the result, are left out.
- Router: patterns and methods are ASCII; the regular-expression engine's own limits are not modelled; the newline-free premise of the rebuilding lemmas is needed because `$` also matches before a final newline, which the match itself does model.
- Backup: a payload may carry `last_backup`, which an update stores; the claim that the mark moves only on success is about backups and scheduler runs.
- Backup: dates are read in the form YYYY-MM-DD (later Python versions accept more ISO forms); job ids, target types, archive contents, restore, verification and replication are left out; no clock is read inside the archive step; a crash between the two saves of a backup is not modelled.
- Backup: the weekly cadence is what the code says, a later date, and not seven days; idempotence of string normalisation in policies is not claimed, because truncation can expose a trailing blank.
- KioskScanner.ExtractsEmbeddedObject: numbers and literals are any run of their characters, which covers the grammar and more.
- KioskConfig: reading and writing the file are left out.
- Audit: dictionary keys are strings; the metadata of an event is stored unredacted, as in the code.
- Description.RewriteThenParse: descriptions without a literal backslash-n only, as the rewriter keeps such a line whole and the parser splits it; for updates with one, DescriptionEscapes has the exact condition.
- AuthSession.AuthSessionService.UpdateAccount: does not model the geo-routing field of an update, a normalised value no other operation here reads.
- ConsoleTokens: calls are sequential, as the store's lock does not span a call; time is a real number.
- AntiAffinity: node lists and configurations are snapshots of one moment; SpreadOverRuns needs readable configurations, since a member that cannot be read does not count as occupying.
- CatalogLookup: the scoring function and the key made from a game's title and position are parameters; paging through the upstream catalog, covers and prices are left out.
- Alerts: `fire_alert` bypasses de-duplication by design and is not an operation here; channels and message texts are left out, and so are updates that name a field a rule does not have.
- ActionQueue: parameters, timestamps and results of actions are left out, as is interleaving between processes.
- The HTTP surfaces, the virsh provider, the web and Electron interfaces and the scripts around them are glue and are not part of this model.
