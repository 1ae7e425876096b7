# Verified model of the Go backend template

A Dafny model of the parts of the backend that carry state, loops or arithmetic, with proofs about
whole runs of them. SQL tables and Redis keys are explicit state; a command is one atomic step unless
said otherwise. Classes follow the Go objects and are proved against specification functions; the
properties are lemmas about those functions, over every input, every run or every interleaving.

| Modules | What they model | Main results |
|---|---|---|
| `LikePattern`, `Keyset`, `ListRepository`, `ListWalks` | the five keyset-paginated listings, the search, the WHERE clause with numbered placeholders | which rows, tokens and flags each answer has; a client that follows the next tokens never gets a row twice and gets every surviving row exactly once while others insert, edit and delete; on an unchanging table it gets everything in `max(1, ceil(n/limit))` pages; a search finds exactly the texts containing the query if and only if the query has no backslash |
| `PolicyLine`, `PolicyQuotes`, `PolicyAdapter` | `casbin_rule` rows, policy lines, the two delete builders | lines are read back as CSV records, quotes included; a model survives save and load if and only if each of its rules is storable; the delete builders select exactly the intended rows |
| `Rbac`, `RbacRuns`, `RbacEffects`, `RbacService` | the four-table join, its flattened copy, the loaded enforcer, ten commands | outside a tracked set of stale users the enforcer agrees with the live join exactly when the user's grants are storable; a reload is done exactly when every line loads, and which lines do; incremental rebuilds equal the full one; what each stale answer is; what each command does to the tables, every user's grants and the answers |
| `AuthModel`, `AuthRuns`, `AuthOutcomes`, `AuthSafety`, `AuthSessions`, `AuthService`, `RefreshRace` | accounts over four tables, refresh tokens, ten commands | from any database with unique emails: when each command gives each answer and what it writes; which password signs in after any run, how long a session lasts, what a mailed token does; the real-time bound on password guesses, single use and permanent revocation of refresh tokens, monotone verification, exact token-row count, and when a used reset token works again; overlapping refreshes statement by statement |
| `EventBus` | NATS callback, redelivery, subscriptions | the exact number of deliveries and of calls of each handler; one broker subscription per type, or none for good if the first was refused |
| `RateLimit` | the fixed-window Redis counter | at most `2 * limit - 1` requests in any window exactly when the window is a whole number of seconds or shorter than one, and that bound is reached |
| `Idempotency` | response formatter, capture writer, replay store | a request is replayed exactly when a recorded execution is younger than the TTL, or there is one at all when the TTL is not positive; a replay repeats the answer exactly when the last status set was the first |
| `DebugBuffer` | the ring buffer with in-place reversal | a read returns the last `min(n, cap)` entries, newest first |
| `Metrics` | double-checked creation of metric vectors under every interleaving | one registration per name, one vector per kind and name, panics exactly on refused names, no deadlock |
| `Slug` | the four-stage rewrite | a slug ignores case and is the maximal `[a-z0-9]` runs joined by dashes; the last stage changes nothing; the fixed points are exactly the normal forms |

## What the proofs found in the code

- A search query containing a backslash is not searched for as written: the escape leaves backslashes
  alone, and for every such query there is a text the pattern matches although it does not contain the
  query (`LikePattern.BackslashBreaksSearch`).
- Rows created through the repositories get no tenant and never have one later, so a request with a tenant
  lists them on no page, whatever happens to the table (`ListWalks.CreatedRowsHaveNoTenant`).
- A granted permission whose resource or action contains a comma, a quote or a line break or starts with
  white space, or whose action is empty or ends in a blank or a carriage return, makes some answer wrong for
  each user it reaches whose copy was reloaded (`Rbac.AgreesIffStorable`; `RbacRuns.TrailingBlankRun` is a run
  from start-up).
- A granted line that does not read as four fields stops every full reload for everyone, and keeps the
  enforcer from starting (`RbacRuns.ReloadedExactlyWhenAllLinesLoad`, `Rbac.LoadsExactlyWithFourFields`).
  Among lines without quotes those are the ones whose right-trimmed text has more or fewer than three commas
  in its first line (`RbacRuns.LineStopsReloads`): a comma inside is enough, and so is an action of one blank
  (`RbacRuns.BlankActionNeverStarts`).
- After `DeleteRole`, `DeletePermission` or `UpdatePermission` the enforcer answers from the old grants until
  the next reload (`RbacRuns.DeletedRoleStillAllows`, `RbacRuns.DeletedPermissionStillAllows`,
  `RbacRuns.UpdatedPermissionIsStale`); `RbacRuns.DeletedRoleRun` is a run from start-up.
- A password-reset token that was used works again until it expires
  (`AuthSessions.UsedTokenWorksAgainExactlyWhen`); `AuthSessions.ResetTokenWorksTwice` is a run from registration.
- Two overlapping refreshes of one token are both accepted when both read it before either revokes it
  (`RefreshRace.BothAcceptedExactlyWhen`).
- A rate-limit window that is not a whole number of seconds is shortened, and a client then gets `2 * limit`
  requests within it (`RateLimit.ShortenedWindowPassesMore`).
- A broker that refuses the first subscription of an event type is never asked again
  (`EventBus.OneSubscriptionPerType`).
- `Lock` counts a failure a second time, so the stored counter after n >= 5 wrong passwords is `2n - 4`
  (`AuthSafety.LockoutBound`).
- A handler that sets the status twice is answered with its first status and replayed with its last
  (`Idempotency.TwoStatusesDiffer`).

## Model

| member | source | states |
|---|---|---|
| `LikePattern.ShortestOfEscaped` | internal/todo/infrastructure/persistence/todo_repository.go:169-170 | every search pattern is accepted by the database; its shortest match is no longer than the query and differs from a query with a backslash |
| `LikePattern.SearchFindsSubstring` | internal/todo/infrastructure/persistence/todo_repository.go:168-173 | under every such case folding, for a query without a backslash the pattern matches a text if and only if the folded query is a substring of the folded text |
| `LikePattern.BackslashBreaksSearch` | internal/todo/infrastructure/persistence/todo_repository.go:168-173 | every query with a backslash has a text that the pattern matches although it does not contain the query |
| `LikePattern.SearchIsExactIffNoBackslash` | internal/todo/infrastructure/persistence/todo_repository.go:168-173 | under every such case folding the search is exact on all texts if and only if the query has no backslash |
| `Keyset.SortFacts` | internal/todo/infrastructure/persistence/todo_repository.go:88 | ordering by created_at and id descending keeps exactly the rows, strictly descending |
| `Keyset.PageCutsRemaining` | internal/authorization/infrastructure/persistence/role_repository.go:67-138 | a page holds exactly the visible rows under the cursor that are not under its own next cursor; the next cursor lies strictly below the old one |
| `Keyset.WalkDescends` | internal/tenant/infrastructure/persistence/tenant_repository.go:67-126 | whatever the table does between requests, a walk lists strictly descending keys of rows that were visible |
| `Keyset.WalkCovers` | internal/user/infrastructure/persistence/user_repository.go:30-101 | a finished walk lists every key that all its tables show |
| `Keyset.NextPageContinues` | internal/authorization/infrastructure/persistence/permission_repository.go:69-140 | on an unchanging table the rows below the next cursor are the remaining rows without the page |
| `Keyset.PageCountIsCeiling` | internal/authorization/infrastructure/persistence/role_repository.go:67-138 | the page count is max(1, ceil(n / limit)) |
| `Keyset.StaticWalkIsComplete` | internal/authorization/infrastructure/persistence/role_repository.go:67-138 | on an unchanging table the pages of a walk concatenate to the filtered, sorted table, in the stated number of pages, and hasNext is true exactly when rows remain |
| `ListRepository.AddCond` | internal/todo/infrastructure/persistence/todo_repository.go:72-84 | appending a condition over fresh placeholders keeps the meaning of the earlier ones and adds exactly its own |
| `ListRepository.AddLimit` | internal/todo/infrastructure/persistence/todo_repository.go:88-89 | with the LIMIT argument the placeholders are exactly 1 to the number of arguments, so the statement is accepted |
| `ListRepository.ListingIsExact` | internal/todo/infrastructure/persistence/todo_repository.go:88-135 | every listing is an error exactly for a cursor that does not decode, and otherwise the exact page of what is in scope: items, order, both tokens, both flags |
| `ListRepository.Repository.Create` | internal/todo/infrastructure/persistence/todo_repository.go:28-42 | appends one live row without tenant, refused exactly for a known id |
| `ListRepository.Repository.Update` | internal/todo/infrastructure/persistence/todo_repository.go:138-154 | the live row with that id gets the new title and description, every other row and field stays; fails exactly when there is none |
| `ListRepository.Repository.Delete` | internal/todo/infrastructure/persistence/todo_repository.go:156-166 | marks (or removes, without soft delete) the row with that id; fails exactly when there is none live |
| `ListRepository.Repository.FetchPage` | internal/todo/infrastructure/persistence/todo_repository.go:88-135 | fetching limit + 1 rows and truncating gives the page of everything the statement selects, with the next token of its last row and the previous one of its first |
| `ListRepository.Repository.AddCursorAndFetch` | internal/todo/infrastructure/persistence/todo_repository.go:77-135 | a cursor that does not decode is an error; otherwise the page of the visible rows below it and its tokens |
| `ListRepository.Repository.GetAll` | internal/todo/infrastructure/persistence/todo_repository.go:65-136 | the answer is exactly the newest limit live rows past the cursor, of the request's tenant if it has one, with the next token of the last row, the previous one of the first, and hasNext when rows are left over |
| `ListRepository.Repository.Search` | internal/todo/infrastructure/persistence/todo_repository.go:168-243 | the same for the rows with the escaped pattern in title or description |
| `ListWalks.TablesAreOneHistory` | internal/todo/infrastructure/persistence/todo_repository.go:28-42 | over any changes ids stay unique, rows keep key and tenant, and deleted rows stay deleted |
| `ListWalks.WalkNeverRepeats` | internal/todo/infrastructure/persistence/todo_repository.go:65-136 | for listings and searches under arbitrary changes between pages, a client that follows the next tokens gets no id twice, newest first |
| `ListWalks.WalkListsShown` | internal/todo/infrastructure/persistence/todo_repository.go:168-243 | when it reaches a page without a next one, it has got exactly once every row that was in scope at each of its requests |
| `ListWalks.WalkListsSurvivors` | internal/todo/infrastructure/persistence/todo_repository.go:65-136 | and, for a listing, exactly once every row visible at its first request and not deleted by its last |
| `ListWalks.FollowsKeys` | internal/todo/infrastructure/persistence/todo_repository.go:119-128 | the tokens such a client follows carry the keys of the keyset walk, page by page |
| `ListWalks.UnchangedWalkIsComplete` | internal/authorization/infrastructure/persistence/role_repository.go:67-138 | while nothing changes it gets exactly the visible rows, each once, newest first, in max(1, ceil(n / limit)) pages, all but the last full and with a next one |
| `ListWalks.RemovedIsNeverFound` | internal/todo/infrastructure/persistence/todo_repository.go:156-166 | a deleted row is on no page of any later request, and deleting it takes no other row off the pages |
| `ListWalks.DroppedIsNotFound` | internal/tenant/infrastructure/persistence/tenant_repository.go:147-159 | where rows are removed for good the row is on no page |
| `ListWalks.EditedIsListedAnew` | internal/todo/infrastructure/persistence/todo_repository.go:138-154 | an edited row is listed with its new text, and a listing shows the same ids as before the edit |
| `ListWalks.SurvivorIsLiveThroughout` | internal/todo/infrastructure/persistence/todo_repository.go:156-166 | a row live in a later table was live in every table before it |
| `ListWalks.TenantlessShownExactlyWhen` | internal/todo/infrastructure/persistence/todo_repository.go:65-75 | a row without a tenant keeps its place and stays so; listings show it exactly while it is live and only without a tenant |
| `ListWalks.CreatedRowsHaveNoTenant` | internal/todo/infrastructure/persistence/todo_repository.go:28-42 | over whole histories, a row the repository created is on no page of a request with a tenant, and a listing without one shows it exactly while it is live |
| `PolicyLine.ReadJoined` | internal/authorization/infrastructure/casbin/adapter.go:33-35 | joining plain fields and reading the line as CSV gives the fields back, interior empty ones included |
| `PolicyQuotes.ReadsQuotedLine` | internal/authorization/infrastructure/casbin/adapter.go:33-35 | a line of quoted fields reads as these fields whatever they hold, commas, quotes and line breaks included |
| `PolicyQuotes.BareQuoteIsRefused` | internal/authorization/infrastructure/casbin/adapter.go:33-37 | a quote inside a field that does not start with one is refused |
| `PolicyQuotes.UndeclaredIsRefused` | internal/authorization/infrastructure/casbin/adapter.go:33-37 | a storable rule of a kind the model does not declare fails the load |
| `PolicyLine.ReadBackShrinks` | internal/authorization/infrastructure/casbin/adapter.go:20-92 | a policy read back is storable, or has fewer quotes or less text than the one stored |
| `PolicyLine.NoCircles` | internal/authorization/infrastructure/casbin/adapter.go:20-92 | policies that are all read back from one another are all storable |
| `PolicyLine.ComesBackIffStorable` | internal/authorization/infrastructure/casbin/adapter.go:20-92 | storing and loading is the identity exactly on rules whose fields have no comma, quote, line break or leading space and whose last field is non-empty and ends in neither a blank nor a carriage return |
| `PolicyAdapter.Adapter.InsertSection` | internal/authorization/infrastructure/casbin/adapter.go:59-89 | pads and inserts every rule of a section, failing exactly when a rule has more than six fields |
| `PolicyAdapter.Adapter.SavePolicy` | internal/authorization/infrastructure/casbin/adapter.go:42-92 | on success the table holds exactly the stored rules of the model; on failure it is unchanged |
| `PolicyAdapter.Adapter.LoadPolicy` | internal/authorization/infrastructure/casbin/adapter.go:20-40 | fails exactly when some row is refused (malformed, or of the wrong type or number of fields for the model); otherwise the loaded policies are exactly what the rows load as, without repeats |
| `PolicyAdapter.Adapter.RemovePolicy` | internal/authorization/infrastructure/casbin/adapter.go:113-126 | deletes exactly the rows of the type whose columns start with the rule; fails exactly for more than six values |
| `PolicyAdapter.BuildFilter` | internal/authorization/infrastructure/casbin/adapter.go:128-139 | the query loop numbers its placeholders 2, 3, ... and selects exactly the rows agreeing on every non-empty value at its shifted column |
| `PolicyAdapter.Adapter.RemoveFilteredPolicy` | internal/authorization/infrastructure/casbin/adapter.go:128-146 | deletes exactly those rows, or nothing when a shifted column does not exist |
| `PolicyAdapter.SaveLoadRoundTrip` | internal/authorization/infrastructure/casbin/adapter.go:20-92 | a saved and loaded model comes back as the same set of rules if and only if every rule is storable |
| `PolicyAdapter.UnstorableRuleIsLost` | internal/authorization/infrastructure/casbin/adapter.go:20-92 | a rule that is not storable does not come back from a table that holds only it |
| `Rbac.FlatRowsAreGrants` | internal/authorization/infrastructure/casbin/sync.go:117-125 | the grouped join has a row exactly for each grant through some live role and live permission |
| `Rbac.SyncUserIsLocal` | internal/authorization/infrastructure/casbin/sync.go:14-53 | a per-user sync gives that user exactly the current lines and leaves the rows of everyone else alone |
| `Rbac.IncrementalEqualsFull` | internal/authorization/infrastructure/casbin/sync.go:14-88 | syncing all users with rows or grants, in any order and with repeats, equals one full sync |
| `Rbac.CurrentAndStorableAgrees` | internal/authorization/infrastructure/casbin/enforcer.go:61-63 | a current, storable user is answered exactly as the live join says |
| `Rbac.AgreeingGrantsAreStorable` | internal/authorization/infrastructure/casbin/enforcer.go:61-63 | if every granted line of a current user is answered, all of them are storable: one that is not makes some answer differ from the live join |
| `Rbac.AgreesIffStorable` | internal/authorization/infrastructure/casbin/model.conf:14 | for a current user the enforcer agrees with the join if and only if every granted line is storable |
| `Rbac.LoadsExactlyWithFourFields` | internal/authorization/infrastructure/casbin/adapter.go:33-37 | every granted line loads exactly when its text reads as one record of four fields, and is refused otherwise |
| `Rbac.LoadsExactlyWithThreeCommas` | internal/authorization/infrastructure/casbin/adapter.go:33-37 | a granted line without quotes loads exactly when the first line of its right-trimmed text has three commas |
| `RbacRuns.ReloadUserInv` | internal/authorization/infrastructure/casbin/enforcer.go:54-59 | a per-user reload that commits brings that user's rows up to date, one that is done loads whatever rows are, and neither disturbs anyone |
| `RbacRuns.ReloadAllInv` | internal/authorization/infrastructure/casbin/enforcer.go:47-52 | a full reload that commits brings all rows up to date, and one that is done everyone's loaded policies |
| `RbacRuns.StepKeepsInv` | internal/authorization/application/command/delete_role.go:22-25 | every command keeps: the rows and the loaded policies of whoever is not tracked are current |
| `RbacRuns.RunKeepsInv` | internal/authorization/application/command/update_permission.go:26-49 | the same over every run of commands |
| `RbacRuns.EnforcerAgreesOutsideStale` | internal/authorization/infrastructure/casbin/sync.go:14-142 | from a start-up that succeeded through any commands, with or without faults, for every user whose loaded policies are not tracked as out of date the enforcer agrees with the live join exactly when the user's grants are storable |
| `RbacRuns.DeletedRoleStillAllows` | internal/authorization/application/command/delete_role.go:22-25 | after deleting a role the enforcer wrongly allows exactly what only that role granted |
| `RbacRuns.DeletedPermissionStillAllows` | internal/authorization/application/command/delete_permission.go:22-25 | after deleting a permission the enforcer wrongly allows exactly what only that permission granted |
| `RbacRuns.UpdatedPermissionIsStale` | internal/authorization/application/command/update_permission.go:26-49 | after changing a permission the enforcer is wrong for exactly the users it reaches that nothing else grants the pair: it still allows the old pair and does not yet allow the new one |
| `RbacRuns.ReloadedExactlyWhenAllLinesLoad` | internal/authorization/infrastructure/casbin/sync.go:55-88 | a full reload without a fault is done exactly when every granted line of every user loads and no other row is refused |
| `RbacRuns.LineStopsReloads` | internal/authorization/infrastructure/casbin/sync.go:55-88 | while a line whose trimmed text does not have exactly three commas is granted no full reload is done, and once it is in the copy no per-user reload either |
| `RbacRuns.BlankActionNeverStarts` | internal/authorization/infrastructure/casbin/enforcer.go:24-45 | with one grant whose action is a blank the enforcer does not start |
| `RbacRuns.DeletedRoleRun` | internal/authorization/application/command/delete_role.go:22-25 | a run from start-up after which the enforcer allows what no table grants |
| `RbacRuns.TrailingBlankRun` | internal/authorization/infrastructure/casbin/adapter.go:33-35 | a start-up after which the enforcer denies a granted action that ends in a blank and allows the one without it |
| `RbacEffects.CreateRoleExactly` | internal/authorization/application/command/create_role.go:24-35 | adds exactly this live role, and refuses exactly a taken id or name, deleted rows included |
| `RbacEffects.UpdateRoleExactly` | internal/authorization/application/command/update_role.go:24-41 | changes exactly the name, or nothing for an empty one; refused exactly for a missing role or a taken name |
| `RbacEffects.DeleteRoleExactly` | internal/authorization/application/command/delete_role.go:22-25 | marks exactly this live role as deleted, and changes neither the copy nor what is loaded |
| `RbacEffects.CreatePermissionExactly` | internal/authorization/application/command/create_permission.go:26-37 | adds exactly this live permission, and refuses exactly a taken id or name |
| `RbacEffects.UpdatePermissionExactly` | internal/authorization/application/command/update_permission.go:26-49 | each argument goes to its own field and an empty one keeps the stored value; refused exactly for a missing permission or a taken name |
| `RbacEffects.DeletePermissionExactly` | internal/authorization/application/command/delete_permission.go:22-25 | marks exactly this live permission as deleted |
| `RbacEffects.AssignRoleGrants` | internal/authorization/application/command/assign_role.go:32-42 | after assigning a live role a user is granted what other ways grant and, if it is the one, what the role offers; any other role changes nothing |
| `RbacEffects.UnassignRoleGrants` | internal/authorization/application/command/unassign_role.go:24-30 | after unassigning a user is granted exactly what ways other than the link grant, and everyone else what they were granted |
| `RbacEffects.AssignPermissionGrants` | internal/authorization/application/command/assign_permission.go:27-41 | after assigning a live permission to a live role every user is granted what other ways grant and, with the role, the permission |
| `RbacEffects.UnassignPermissionGrants` | internal/authorization/application/command/unassign_permission.go:24-30 | after unassigning every user is granted exactly what ways other than the link grant |
| `RbacEffects.UnassignedRoleIsDenied` | internal/authorization/application/command/unassign_role.go:24-30 | after any run, an unassign whose reload is done and with storable grants, the enforcer allows exactly what other ways grant; one that agreed before newly denies exactly what only the link granted |
| `RbacEffects.UnassignedPermissionIsDenied` | internal/authorization/application/command/unassign_permission.go:24-30 | the same for every user after a permission is unassigned |
| `RbacEffects.AssignedRoleIsAllowed` | internal/authorization/application/command/assign_role.go:32-42 | after an assign whose reload is done the enforcer allows what other ways grant and what the role offers |
| `RbacEffects.AssignedPermissionIsAllowed` | internal/authorization/application/command/assign_permission.go:27-41 | the same for every user after a permission is assigned |
| `RbacEffects.OthersKeepTheirAnswers` | internal/authorization/infrastructure/casbin/enforcer.go:54-59 | a per-user reload leaves the answers for everyone else who was up to date |
| `RbacService.Service.constructor` | internal/authorization/infrastructure/casbin/enforcer.go:24-45 | starting the enforcer syncs and loads everything, and succeeds exactly when it all loads |
| `RbacService.Service.LoadFlattenedPolicies` | internal/authorization/infrastructure/casbin/sync.go:90-142 | collects exactly the rows of the join, for one user or all, without repeats |
| `RbacService.Service.LoadPolicy` | internal/authorization/infrastructure/casbin/adapter.go:20-40 | replaces the enforcer's policies by what the rows load as, or keeps them when a row is refused |
| `RbacService.Service.InsertAll` | internal/authorization/infrastructure/casbin/sync.go:38-42 | adds one row per policy to what the transaction kept, unless a statement fails |
| `RbacService.Service.SyncUserPolicies` | internal/authorization/infrastructure/casbin/sync.go:14-53 | rebuilds the user's rows and reloads; a failure before the commit leaves the table unchanged; without a fault it is done exactly when the new rows load |
| `RbacService.Service.SyncAllPolicies` | internal/authorization/infrastructure/casbin/sync.go:55-88 | the same for all policies |
| `RbacService.Service.EnforceRequest` | internal/authorization/infrastructure/casbin/enforcer.go:61-63 | for a user with current policies and storable grants the answer is whether the live four-table join grants the request |
| `RbacService.Service.HandleCreateRole` | internal/authorization/application/command/create_role.go:24-35 | the step of the model, refused exactly for a taken name or id |
| `RbacService.Service.HandleUpdateRole` | internal/authorization/application/command/update_role.go:24-41 | the step of the model; an empty name keeps the stored one |
| `RbacService.Service.HandleDeleteRole` | internal/authorization/application/command/delete_role.go:22-25 | soft-deletes a live role and reloads nothing |
| `RbacService.Service.HandleCreatePermission` | internal/authorization/application/command/create_permission.go:26-37 | the step of the model, refused exactly for a taken name or id |
| `RbacService.Service.HandleUpdatePermission` | internal/authorization/application/command/update_permission.go:26-49 | changes the stored permission field by field and reloads nothing |
| `RbacService.Service.HandleDeletePermission` | internal/authorization/application/command/delete_permission.go:22-25 | soft-deletes a live permission and reloads nothing |
| `RbacService.Service.HandleAssignRole` | internal/authorization/application/command/assign_role.go:32-42 | adds the link to a live role, then reloads that user |
| `RbacService.Service.HandleUnassignRole` | internal/authorization/application/command/unassign_role.go:24-30 | the step of the model with every fault: removes the link (`RbacEffects.UnassignRoleGrants`), then reloads that user |
| `RbacService.Service.HandleAssignPermission` | internal/authorization/application/command/assign_permission.go:27-41 | adds the link between live rows, then reloads everyone |
| `RbacService.Service.HandleUnassignPermission` | internal/authorization/application/command/unassign_permission.go:24-30 | removes the link, then reloads everyone |
| `AuthRuns.UpdateIsSeenByEveryGetter` | internal/authentication/infrastructure/persistence/user_repository.go:131-290 | after an update each getter returns the new account for that user and the old one for anyone else; a token found before is still found for its user, any other is found exactly if it was just stored |
| `AuthRuns.UpdateKeepsOtherEmails` | internal/authentication/infrastructure/persistence/user_repository.go:148-163 | looking up any other email finds what it found before |
| `AuthRuns.CreatedIsSeen` | internal/authentication/infrastructure/persistence/user_repository.go:65-123 | a created account is found by id and by email as it was given, verified now if given verified, and is refused exactly for an id or email in use; everyone else is found as before |
| `AuthRuns.StepHasFacts` | internal/authentication/application/command/register_user.go:33-72 | what each of the ten commands does to every user's record, side rows or not, and to the token rows, by its outcome |
| `AuthRuns.StepRefreshEffect` | internal/authentication/domain/repository/authentication_repository.go:19-26 | what each command does to every refresh row, from any database |
| `AuthOutcomes.SignInExactly` | internal/authentication/application/query/login.go:30-62 | signing in answers `LoggedIn(u)` if and only if u is the live holder of the email, active, not locked, verified, and its stored hash is that of the typed password; `WrongPassword(u)` if and only if all that holds and the hash differs; each other answer exactly under its guard |
| `AuthOutcomes.SignInByPassword` | internal/authentication/application/query/login.go:49 | in terms of passwords without zero bytes: exactly the stored password, or one that continues it when it has all 72 bytes |
| `AuthOutcomes.SignInCounts` | internal/authentication/application/query/login.go:49-59 | what each answer leaves in the counter and the lock: one more below the fifth failure, two more and a lock of 15 minutes from there, nothing after a success; no other answer changes anything |
| `AuthOutcomes.SignInOpensSession` | internal/authentication/application/command/generate_tokens.go:35-70 | a successful sign-in adds a refresh row of that user which ends after seven days, unless the token text is taken |
| `AuthOutcomes.RegisterExactly` | internal/authentication/application/command/register_user.go:33-72 | when a registration gives each answer, and all it writes: email, name, active, unverified, the hash of the password, a cleared counter, a verification row for a day |
| `AuthOutcomes.ResendExactly` | internal/authentication/application/command/resend_verification.go:25-56 | mails exactly the unverified holder of the email and adds exactly a verification row for a day |
| `AuthOutcomes.ForgotExactly` | internal/authentication/application/command/forgot_password.go:25-53 | mails exactly the holder of the email and adds exactly a reset row for an hour |
| `AuthOutcomes.VerifyExactly` | internal/authentication/application/command/verify_email.go:25-52 | fails exactly without an open row with the token; otherwise verifies the owner of such a row, keeping a first time |
| `AuthOutcomes.ResetExactly` | internal/authentication/application/command/reset_password.go:25-46 | changes the password exactly with an open row and a password that can be hashed; then the owner of such a row has the hash of the new password and nothing else of the accounts changes |
| `AuthOutcomes.RefreshExactly` | internal/authentication/application/command/refresh_token.go:29-58 | when a refresh gives each answer, and that the new row ends after the asked time if that is positive, else after seven days |
| `AuthOutcomes.RefreshRowExactly` | internal/authentication/domain/repository/authentication_repository.go:19-26 | a refresh row is revoked exactly by its logout, its refresh, and a logout everywhere or a reset of its user, deleted exactly by a purge after its end, and changed by nothing else |
| `AuthSessions.PasswordIsLastSet` | internal/authentication/application/command/reset_password.go:42-46 | over every run the stored hash is that of the last password registered or reset |
| `AuthSessions.SignsInWithLastPassword` | internal/authentication/application/query/login.go:49 | so a later sign-in of an account that may try succeeds exactly with that password, or one that continues it when it has 72 bytes |
| `AuthSessions.SessionLasts` | internal/authentication/application/command/generate_tokens.go:37-60 | in every run the refresh token of a session is accepted until seven days after it was opened, or as long as was asked for, unless it was closed before, and not otherwise |
| `AuthSessions.LogoutEndsForGood` | internal/authentication/application/command/logout.go:25-31 | a token that was logged out is never accepted again |
| `AuthSessions.MailedTokenVerifies` | internal/authentication/application/command/verify_email.go:25-52 | in every run the token a registration or resend mails verifies somebody for a day, and, when no other row holds the token, its user until then and nobody afterwards |
| `AuthSessions.MailedTokenResets` | internal/authentication/application/command/reset_password.go:25-46 | likewise the token a password request mails, for an hour |
| `AuthSafety.RunKeepsUnique` | internal/authentication/infrastructure/persistence/user_repository.go:212-222 | every run keeps emails unique |
| `AuthSafety.HistoryIsStored` | internal/authentication/application/query/login.go:41-59 | from any start, the stored counter and lock are a function of the wrong checks since the last success, which are spaced by the lockout from the sixth on |
| `AuthSafety.LockoutBound` | internal/authentication/application/query/login.go:30-62 | the n-th wrong check since the last success is at least (n - 5) * 15 minutes after the fifth; the stored counter is n below five and 2n - 4 from there |
| `AuthSafety.NoCheckWhileLocked` | internal/authentication/application/query/login.go:41-43 | no login succeeds and no password is checked within a lockout of the last wrong check once five have been made |
| `AuthSafety.OnlyChecksTouchSecurity` | internal/authentication/application/query/login.go:49-59 | a command that is no password check of a user leaves that user's counter and lock as they are |
| `AuthSafety.DeadStaysDead` | internal/authentication/domain/repository/authentication_repository.go:19-26 | from any database, revocation is permanent and keeps its time |
| `AuthSafety.AcceptedExactlyWhen` | internal/authentication/application/command/refresh_token.go:31-51 | accepted exactly are the unexpired, unrevoked tokens of live, active, verified users |
| `AuthSafety.AcceptedAtMostOnce` | internal/authentication/application/command/refresh_token.go:29-58 | from any database, in any run a refresh token is accepted at most once; later attempts change nothing |
| `AuthSafety.SessionsEndForGood` | internal/authentication/application/command/reset_password.go:25-46 | after either, no earlier token of that user is ever accepted again |
| `AuthSafety.RefreshRotates` | internal/authentication/application/command/refresh_token.go:53-57 | a refresh trades one unrevoked token for one new one, keeps their number and touches no one else's |
| `AuthSafety.TokensBelongToVerifiedUsers` | internal/authentication/application/command/refresh_token.go:49-51 | in every run a refresh row that is new or belonged to an email-verified user belongs to one |
| `AuthSafety.VerificationIsFixed` | internal/authentication/infrastructure/persistence/user_repository.go:212-220 | once verified, a user stays verified with the same timestamp |
| `AuthSafety.VerifiedByCommand` | internal/authentication/application/command/verify_email.go:25-52 | that timestamp is the one at the start or the time of a verify command of the run |
| `AuthSafety.TokenRowsCountMails` | internal/authentication/infrastructure/persistence/user_repository.go:247-265 | the number of token rows grows by exactly the number of mailed tokens |
| `AuthSafety.MailedExactlyWhen` | internal/authentication/application/command/forgot_password.go:25-53 | a token is mailed exactly by a successful registration, a resend for an unverified account, and a password request for a known one |
| `AuthSafety.RowsAndUsersStay` | internal/authentication/infrastructure/persistence/user_repository.go:205-268 | in every run token rows are only added and live users stay live |
| `AuthSessions.UsedTokenWorksAgainExactlyWhen` | internal/authentication/application/command/reset_password.go:25-46 | in every run a used reset token works again if and only if the password can be hashed and a row holding it is open, and the row it was used with is open until it expires |
| `AuthSessions.ResetTokenWorksTwice` | internal/authentication/application/command/reset_password.go:25-46 | for all passwords, in the run register, verify, forgot, reset, reset from the empty database both resets succeed |
| `AuthModel.MatchesExactlyWhen` | internal/authentication/application/query/login.go:49 | among passwords without zero bytes a hash matches its own password and, if that has all 72 bytes, every password that continues it |
| `RefreshRace.PassedExactlyWhen` | internal/authentication/application/command/refresh_token.go:29-58 | however many refreshes of one token overlap, in every order of their statements one gets past its checks exactly when it read the token in time and before anyone had revoked it |
| `RefreshRace.AcceptedExactlyWhen` | internal/authentication/application/command/refresh_token.go:29-58 | and after its four statements it was accepted exactly then |
| `RefreshRace.BothAcceptedExactlyWhen` | internal/authentication/application/command/refresh_token.go:31-53 | of two overlapping refreshes in time both are accepted exactly when each reads the token before the other revokes it, and at least one always is |
| `RefreshRace.AloneIsTheCommand` | internal/authentication/application/command/refresh_token.go:29-58 | the four statements of a refresh nobody interrupts come to the refresh command, database and answer |
| `AuthService.Account.Lock` | internal/authentication/domain/entity/user.go:41-45 | counts one more failure and sets the lock |
| `AuthService.Account.Unlock` | internal/authentication/domain/entity/user.go:47-50 | clears counter and lock |
| `AuthService.UserRepository.InsertTokens` | internal/authentication/infrastructure/persistence/user_repository.go:247-265 | adds one row per pending token, verification first |
| `AuthService.UserRepository.Create` | internal/authentication/infrastructure/persistence/user_repository.go:65-123 | all four tables change together or none does |
| `AuthService.UserRepository.Update` | internal/authentication/infrastructure/persistence/user_repository.go:205-268 | all four tables change together or none does; the first verification time is kept |
| `AuthService.UserRepository.FindByID` | internal/authentication/infrastructure/persistence/user_repository.go:131-146 | the joined account of a live user |
| `AuthService.UserRepository.FindByEmail` | internal/authentication/infrastructure/persistence/user_repository.go:148-163 | the joined account of the live user with that email |
| `AuthService.UserRepository.FindByToken` | internal/authentication/infrastructure/persistence/user_repository.go:165-203 | the account of the first unexpired matching token row of a live user |
| `AuthService.RefreshTokenRepository.Create` | internal/authentication/infrastructure/persistence/refresh_token_repository.go:23-37 | adds an unrevoked row that ends after the given time if positive and else after seven days; refused exactly for a known token text |
| `AuthService.RefreshTokenRepository.RevokeToken` | internal/authentication/infrastructure/persistence/refresh_token_repository.go:64-71 | revokes the row unless it already is |
| `AuthService.RefreshTokenRepository.RevokeAllByUserID` | internal/authentication/infrastructure/persistence/refresh_token_repository.go:73-80 | revokes exactly the user's unrevoked rows |
| `AuthService.RefreshTokenRepository.PurgeExpired` | internal/authentication/infrastructure/persistence/refresh_token_repository.go:82-89 | marks exactly the rows past their time as deleted |
| `AuthService.Handlers.HandleRegister` | internal/authentication/application/command/register_user.go:33-72 | the step of the model, outcome and whole database |
| `AuthService.Handlers.HandleVerifyEmail` | internal/authentication/application/command/verify_email.go:25-52 | the step of the model, outcome and whole database |
| `AuthService.Handlers.HandleResend` | internal/authentication/application/command/resend_verification.go:25-56 | the step of the model, outcome and whole database |
| `AuthService.Handlers.HandleForgot` | internal/authentication/application/command/forgot_password.go:25-53 | the step of the model, outcome and whole database |
| `AuthService.Handlers.HandleLogin` | internal/authentication/application/query/login.go:30-62 | the password check of a sign-in (`AuthOutcomes.SignInExactly`, `AuthOutcomes.SignInCounts`), outcome and whole database |
| `AuthService.Handlers.HandleSignIn` | internal/authentication/application/command/generate_tokens.go:35-70 | succeeds for a user exactly when it may try and its stored hash is that of the password, and then issues one refresh row of seven days; outcome and whole database |
| `AuthService.Handlers.HandleRefresh` | internal/authentication/application/command/refresh_token.go:29-58 | the refresh command (`AuthOutcomes.RefreshExactly`), outcome and whole database |
| `AuthService.Handlers.HandleReset` | internal/authentication/application/command/reset_password.go:25-46 | the reset command (`AuthOutcomes.ResetExactly`), outcome and whole database; on success the hash of the new password is stored |
| `AuthService.Handlers.HandleLogout` | internal/authentication/application/command/logout.go:25-31 | the step of the model, outcome and whole database |
| `AuthService.Handlers.HandleLogoutAll` | internal/authentication/application/command/logout_all.go:22-25 | the step of the model, outcome and whole database |
| `EventBus.DeliveryStopsAtFirstFailure` | internal/shared/events/nats_event_bus.go:96-102 | a delivery calls the handlers in order up to and including the first that fails; it is acknowledged exactly when none does |
| `EventBus.RedeliveryCount` | internal/shared/events/nats_event_bus.go:78-104 | with failures f a message takes 1 + sum f deliveries and handler i runs 1 + sum of f from i on times |
| `EventBus.NATSEventBus.Subscribe` | internal/shared/events/nats_event_bus.go:68-76 | appends the handler, asking the broker only for the first of its type and dropping a refusal |
| `EventBus.NATSEventBus.Callback` | internal/shared/events/nats_event_bus.go:80-103 | exactly one Ack or Nak; unknown or undecodable messages are acknowledged without calling anyone; otherwise the delivery of the model |
| `EventBus.OneSubscriptionPerType` | internal/shared/events/nats_event_bus.go:68-80 | after any subscriptions a type has its handlers in order, and one broker subscription if the first one asked for was accepted, else none |
| `RateLimit.Limiter.Handle` | internal/shared/middleware/ratelimit.go:15-43 | one increment per request, a pass exactly up to the limit, the remaining count, and a retry time after which the counter is gone and that is less than a second too long; without Redis a pass that counts nothing |
| `RateLimit.CountsOwnRequests` | internal/shared/middleware/ratelimit.go:21-29 | the counter of a client counts exactly its own requests since one that came a life or more after the first of the earlier ones, and a request passes exactly as one of the first limit of them |
| `RateLimit.LifetimeIsWholeSeconds` | internal/shared/middleware/ratelimit.go:27-29 | a counter lives for the longest whole number of seconds within the window, or one second for a shorter one |
| `RateLimit.LifetimeBound` | internal/shared/middleware/ratelimit.go:21-40 | in the lifetime of a counter exactly the first limit requests pass |
| `RateLimit.LifetimeRateBound` | internal/shared/middleware/ratelimit.go:21-42 | at most 2 * limit - 1 requests of a client pass in any half-open interval as long as a counter lives |
| `RateLimit.RateBound` | internal/shared/middleware/ratelimit.go:21-42 | for a window that Redis is sent unshortened, at most 2 * limit - 1 requests of a client pass in any half-open interval as long as the window |
| `RateLimit.RateBoundIsReached` | internal/shared/middleware/ratelimit.go:21-42 | for every limit and such window of at least two milliseconds a run in which exactly 2 * limit - 1 pass |
| `RateLimit.ShortenedWindowPassesMore` | internal/shared/middleware/ratelimit.go:27-29 | for every window that loses a fraction of a second a run in which 2 * limit pass within the window |
| `RateLimit.RateBoundExactlyWhen` | internal/shared/middleware/ratelimit.go:27-29 | the bound holds for the window's length if and only if the window is a whole number of seconds or shorter than one |
| `Idempotency.FormatTwice` | internal/shared/middleware/formatter.go:18-90 | formatting a formatted response changes nothing |
| `Idempotency.WrappedExactly` | internal/shared/middleware/formatter.go:31-89 | which envelope a body goes out in: an error exactly from status 400 on, with the code and message found or the status text; else page, cursor page or plain data, with what data and meta |
| `Idempotency.FormattingWriter.WriteHeader` | internal/shared/middleware/formatter.go:101-107 | the first status wins |
| `Idempotency.FormattingWriter.Write` | internal/shared/middleware/formatter.go:109-112 | the body is collected |
| `Idempotency.FormattingWriter.Serve` | internal/shared/middleware/formatter.go:14-15 | after any calls the writer holds the first status set and the whole body |
| `Idempotency.FormattingWriter.Finish` | internal/shared/middleware/formatter.go:17-89 | empty bodies and envelopes go out as they are, everything else wrapped by status and shape |
| `Idempotency.IdempotencyCapture.WriteHeader` | internal/shared/middleware/idempotency.go:81-84 | the capture takes the last status and passes every one on |
| `Idempotency.IdempotencyCapture.Write` | internal/shared/middleware/idempotency.go:86-89 | the body goes to both |
| `Idempotency.IdempotencyCapture.Serve` | internal/shared/middleware/idempotency.go:52-53 | after any calls the capture holds the last status and the body, its inner writer the first status and the body |
| `Idempotency.Gateway.Handle` | internal/shared/middleware/idempotency.go:23-68 | answer, new store and whether the handler ran, for each of bypass, replay and execution; without a key or with another verb it ran and nothing is stored |
| `Idempotency.StoreIsLatest` | internal/shared/middleware/idempotency.go:55-63 | the store holds a key exactly when a response was recorded for it, and then the most recent one |
| `Idempotency.ReplayedExactlyWhen` | internal/shared/middleware/idempotency.go:23-63 | a request is replayed if and only if it is a POST with a key and a POST with that key ran and answered 200 to 299 less than the TTL before, or at all with a TTL that is not positive |
| `Idempotency.ExecutionsAreSpaced` | internal/shared/middleware/idempotency.go:40-63 | after a recorded execution the handler does not run for that key before the TTL has passed, and never again when the TTL is not positive |
| `Idempotency.ReplayIsFaithfulExactlyWhen` | internal/shared/middleware/idempotency.go:40-63 | a replay answers from the most recent recorded execution and repeats its answer if and only if the last status set was the first |
| `Idempotency.SingleStatusReplays` | internal/shared/middleware/idempotency.go:40-63 | for handlers that set the status at most once every replay repeats the recorded answer |
| `Idempotency.TwoStatusesDiffer` | internal/shared/middleware/idempotency.go:81-84 | a handler setting 500 and then 200 answers 500 and is replayed with 200 |
| `DebugBuffer.OlderEntriesAreGone` | internal/infrastructure/messaging/debug.go:51-75 | after capacity many appends nothing from before can be read |
| `DebugBuffer.ReverseInPlace` | internal/infrastructure/messaging/debug.go:70-72 | the swap loop reverses the array |
| `DebugBuffer.Buffer.Append` | internal/infrastructure/messaging/debug.go:31-49 | adds one entry with the first 1024 bytes of its payload to the history the ring stands for |
| `DebugBuffer.Buffer.Read` | internal/infrastructure/messaging/debug.go:51-75 | returns the last min(n, cap) entries of the history, newest first |
| `Metrics.RunKeepsInv` | internal/monitoring/infrastructure/prometheus/metrics.go:49-117 | it holds under every interleaving |
| `Metrics.RegisteredOnce` | internal/monitoring/infrastructure/prometheus/metrics.go:49-117 | no name is registered twice |
| `Metrics.CallersAgree` | internal/monitoring/infrastructure/prometheus/metrics.go:49-117 | two returned callers have the same vector if and only if they asked for the same kind and name, and equal requests end alike |
| `Metrics.PanicsExactlyWhenRefused` | internal/monitoring/infrastructure/prometheus/metrics.go:64-67 | a finished caller panicked if and only if its name is invalid, foreign or taken by another kind |
| `Metrics.WriterIsAlone` | internal/monitoring/infrastructure/prometheus/metrics.go:57-58 | while one caller holds the write lock nobody else holds the lock |
| `Metrics.SomebodyCanMove` | internal/monitoring/infrastructure/prometheus/metrics.go:49-117 | as long as a caller has not finished some caller can take a step towards its end |
| `Metrics.Recorder.Register` | internal/monitoring/infrastructure/prometheus/metrics.go:64-67 | registers and numbers a new vector, or panics without effect on the registry |
| `Metrics.Recorder.GetOrCreate` | internal/monitoring/infrastructure/prometheus/metrics.go:49-70 | alone, a request yields the known vector, a new registered and stored one, or a panic |
| `Metrics.Recorder.CreateLocked` | internal/monitoring/infrastructure/prometheus/metrics.go:57-69 | the same for the part under the write lock |
| `Metrics.AloneObtains` | internal/monitoring/infrastructure/prometheus/metrics.go:49-70 | the interleaved steps of an undisturbed caller come to that same outcome and leave the lock free |
| `Slug.LastStageIsIdentity` | pkg/slug/slug.go:17 | the dash-collapsing stage never changes anything |
| `Slug.MakeJoinsWords` | pkg/slug/slug.go:13-19 | a slug is the maximal [a-z0-9] runs of the lower-cased input joined by single dashes, in normal form |
| `Slug.FixedExactlyWhenNormal` | pkg/slug/slug.go:13-19 | the strings left unchanged are exactly those in normal form |
| `Slug.MakeIsIdempotent` | pkg/slug/slug.go:13-19 | making a slug of a slug changes nothing |
| `Slug.MakeSplits` | pkg/slug/slug.go:13-19 | around any other character the slug is that of what is before and that of what is after it, joined by a dash if neither is empty |
| `Slug.MakeIgnoresCase` | pkg/slug/slug.go:14 | texts that differ in the case of letters have one slug |

## Left out

- Cursor text: `cursor.Encode` and `Decode` are a token type that either carries a key or does not decode; JSON and the base64 alphabet are not modelled.
- Backward paging: what `prevCursor` and `hasPrev` are is stated, but no property of following them is claimed; the code offers no request that does.
- ListWalks.WalkNeverRepeats: is about tables that soft-delete; for tenants, which are removed for good, the walks over arbitrary tables (`ListWalks.FollowDescends`, `Keyset.WalkCovers`) apply.
- ListRepository.Repository.GetAll: one class stands for the five repositories, with only the columns the queries filter or sort on and the todo columns; scan errors are not modelled.
- Rows as lists: tables are sequences without storage order guarantees beyond ORDER BY; unique ids are the primary key.
- PolicyAdapter.SaveLoadRoundTrip: compares sets of rules; the order of rules is not kept by the database.
- LikePattern.SearchFindsSubstring: case folding goes character by character; a locale that folds one character to several is not modelled.
- PolicyLine.ComesBackIffStorable: the CSV reader is that of the Go standard library with leading space trimmed, and the policies a model accepts are a parameter; for the authorization model those are `p` with three fields and `g` with at least two.
- Casbin itself: the load it makes when the enforcer is constructed, before the first sync, its result cache and its locking; enforcing is membership of the request's line in the loaded policies, with no role links.
- RbacRuns.EnforcerAgreesOutsideStale: rows of types other than `p` that would load, such as role links, are assumed absent; the repository writes none.
- `Adapter.AddPolicy`: sends eight values to seven placeholders and is not modelled.
- Replicas: one process with one loaded copy.
- Times in authentication: one clock and one point in time per command, so the second expiry checks of verify and reset cannot fire and are not written out; random tokens are parameters.
- Hashes: SHA-256 is taken as injective, and bcrypt as injective in the 72 bytes of key it uses.
- AuthSafety.LockoutBound: the counter is unbounded; the 32-bit column is not modelled.
- Concurrency inside a command: overlapping refreshes of one token are modelled statement by statement (`RefreshRace`); all other runs, and so the lockout bound, are of commands that do not overlap.
- Database and Redis failures, except the two reload failures of the policy sync and the rate limiter's pass-through.
- RateLimit.RateBound: assumes that the increment and the expiry both succeed.
- Revoking queries: the generated authentication SQL is not part of this model; revoke and revoke-all follow the interface at internal/authentication/domain/repository/authentication_repository.go:19-26.
- Changing users other than through the ten commands: the administrator's commands that make, change or soft-delete users may have happened before a run, not during it.
- Access tokens, the deny list, e-mails and published events; the `users.password` column, which no getter reads.
- EventBus.RedeliveryCount: the broker redelivers until acknowledged and handler lists do not change in between; publishing and payload types are not modelled.
- Idempotency.FormatTwice: JSON decoding and encoding are parameters; that an encoded envelope is recognised as one is assumed.
- Idempotency.ReplayedExactlyWhen: requests of a run do not overlap, Redis answers, and stored entries decode; headers are not modelled.
- DebugBuffer.Buffer.Append: the capacity is positive (with zero the Go code panics on the first append); the read-write lock makes each call atomic.
- Metrics.Recorder.GetOrCreate: the three near-identical methods are one, with the kind as a parameter and the three maps as one map over kind and name; the registry is the process-wide default one, so a name taken by another kind panics.
- Metrics.SomebodyCanMove: says that a step is possible, not that the scheduler takes it; waiting writers blocking new readers, which only removes interleavings, is not modelled.
- Observing metrics after the vector is found, and `extractValues`.
- Slug.MakeJoinsWords: lower-casing is written out for the letters whose lower case is in [a-z0-9]; all others are replaced by dashes either way. Invalid UTF-8 is not modelled.
- HTTP handlers, routers, validation, configuration, logging, tracing, audit log, CORS, security headers, tenant resolution, todo commands and specifications: they hold no state, loop or arithmetic of their own.
