# Team membership in Moira's API controller

Moira groups users into teams. The database keeps the relation twice:
- a **forward index**: each team ID maps to the team's ordered member list;
- a **reverse index**: each user ID maps to the list of teams the user belongs to.

The API controller reads and updates team records. Two membership operations keep both
indexes in step:
- `AddTeamUsers` adds users to a team;
- `DeleteTeamUser` removes one user from a team.

Each of them reads the team, its member list and the members' team lists, checks the request,
builds a plan (the new member list plus the new team list of every user involved), and writes
the plan in one save.

This project models that controller:
- `Storage`: the database contents as a value (`Store`), and the database object with its two
  writes (`Database`). A read of a key either finds a value, reports "no such key" (`Absent`),
  or fails with another error.
- `Api`: the error responses (NotFound, InvalidRequest, InternalServer), each with the kind of
  thing missing or in conflict and the ID named.
- `Lists`: the list operations the controller relies on: swap-removal, filtering and
  duplicate-freedom.
- `TeamController`: the controllers. The two membership operations are proved against
  reference functions (`AddTeamUsersResult`, `DeleteTeamUserResult`). Each reference function
  gives, per database contents, the response and the write plan. `removeUserTeam` works in
  place on an array, as the source does on its slice.
- `TeamProperties`: what the plans contain, stated independently of how they are computed:
  - exactly when a request succeeds;
  - the exact final member list and every user's new team list;
  - which check fails first, and which error that gives.
  It also holds the scenarios of the source's unit tests.
- `Membership`: the invariant the engine exists to keep. The two indexes describe the same
  relation and no list holds a duplicate. Both membership operations preserve it, whether the
  request is accepted, rejected, or its save fails.

Behaviour of the code worth noting:
- An existing member with no stored team list gives NotFound naming that user
  (api/controller/team.go:104-105), not InternalServer.
- The database's "no such key" signal is one signal. The code compares against two names for
  it (`database.ErrNil` and `redis.ErrNil`), and they are treated as the same.
- A failed save of the membership plan is not reported. The response is the same as after a
  successful save; see "## Findings".

## Model

| member | source | states |
|---|---|---|
| TeamController.GetTeam | api/controller/team.go:32-44 | success exactly when the team read neither fails nor misses, with the stored record; NotFound naming the team exactly when the key is absent; InternalServer exactly when the read fails |
| TeamController.GetUserTeams | api/controller/team.go:47-61 | the same three-way outcome for a user's team list, NotFound naming the user |
| TeamController.GetTeamUsers | api/controller/team.go:64-78 | the same three-way outcome for a team's member list, NotFound naming the team |
| TeamController.CreateTeam | api/controller/team.go:15-29 | the record is stored under the given ID and the ID is returned, with no existence check; a failed save gives InternalServer and changes nothing; after success the team reads back as written |
| TeamController.UpdateTeam | api/controller/team.go:154-167 | a team that cannot be read gives GetTeam's error and nothing is written; otherwise the record is overwritten and the ID returned, or a failed save gives InternalServer; after success the team reads back as written |
| TeamController.AddUserTeam | api/controller/team.go:143-151 | fails exactly when the team is already in the list, returning an empty list; otherwise returns the list with the team appended at the end, keeping it duplicate-free |
| TeamController.RemoveUserTeam | api/controller/team.go:230-239 | fails exactly when the team is absent, leaving the array untouched and returning an empty list; otherwise the first occurrence is overwritten by the last element, the last cell is blanked, and the result is the list one shorter |
| Lists.SwapRemove | api/controller/team.go:233-235 | the result is one shorter than the list; the removed position holds the old last element and every other position keeps its element |
| Lists.FirstIndex | api/controller/team.go:231-232 | the index found holds the element and no earlier index does |
| Lists.SwapRemoveMultiset | api/controller/team.go:233-235 | swap-removal takes out exactly one occurrence of the removed element and keeps every other element |
| Lists.SwapRemoveMembers | api/controller/team.go:233-235 | on a duplicate-free list, swap-removal keeps the list duplicate-free and removes exactly the chosen element |
| Lists.Without | api/controller/team.go:208-215 | the final member list of a removal holds exactly the old members other than the leaving user, and is no longer than the old list |
| Lists.WithoutUnique | api/controller/team.go:208-215 | filtering a user out of a duplicate-free member list keeps it duplicate-free |
| Lists.AppendUnique | api/controller/team.go:149 | joining two duplicate-free lists with no common element gives a duplicate-free list |
| TeamController.LoadMembers | api/controller/team.go:101-111 | on success the existing members follow the accumulated list in stored order; the only errors are a team list that is missing (NotFound naming the user) or unreadable (InternalServer) |
| TeamController.AddNewUsers | api/controller/team.go:113-130 | on success the new users follow the accumulated list in input order; a missing team list is never an error here, so the loop fails only with InvalidRequest or with InternalServer for an unreadable list |
| TeamController.AddTeamUsersResult | api/controller/team.go:81-130 | a success needs the team and its member list, and the final member list is the stored one followed by the new users |
| TeamController.DeleteMembers | api/controller/team.go:200-217 | on success the members other than the leaving user follow the accumulated list in stored order; the only errors are those of a team-list read and InternalServer for a leaving user whose list lacks the team |
| TeamController.DeleteTeamUserResult | api/controller/team.go:170-217 | a success needs the team and a member list holding the leaving user, and the final member list is that list without the user |
| TeamController.PlanAddTeamUsers | api/controller/team.go:82-130 | the loops over existing members and new users compute exactly the reference response and plan |
| TeamController.PlanDeleteTeamUser | api/controller/team.go:171-196 | the reads and the membership scan, followed by the loop over members, compute exactly the reference response and plan |
| TeamController.PlanRemoval | api/controller/team.go:197-217 | the loop over members, with in-place removal from the leaving user's list, computes exactly the reference loop's response and plan |
| TeamController.AddTeamUsers | api/controller/team.go:81-141 | the response is the planned member list or the first error; the database holds the plan afterwards if and only if there is one and the save succeeded, and is unchanged otherwise |
| TeamController.DeleteTeamUser | api/controller/team.go:170-228 | the same, for removal |
| Storage.Database.SaveTeam | api/controller/team.go:23 | the write either fails and changes nothing, or stores the record under the ID |
| Storage.Database.SaveTeamsAndUsers | api/controller/team.go:132 | the write either fails and changes nothing, or overwrites the team's member list and each named user's team list together |
| TeamProperties.LoadMembersOutcome | api/controller/team.go:101-111 | the loop over existing members succeeds exactly when every member's team list can be read; it then appends the members in stored order and maps each one to its stored list |
| TeamProperties.LoadMembersError | api/controller/team.go:101-108 | a failure of that loop is the read error of the first member whose list cannot be read |
| TeamProperties.AddNewUsersAccepted | api/controller/team.go:113-130 | the loop over new users succeeds exactly when each new user is neither a member nor named earlier, has a readable (possibly absent) team list, and is not already listed in the team |
| TeamProperties.AddNewUsersPlan | api/controller/team.go:113-130 | on success the new users follow the existing ones in input order, each mapped to its old team list with the team appended, and earlier entries are unchanged |
| TeamProperties.AddNewUsersFirstRejection | api/controller/team.go:113-127 | the first new user that fails a check decides the error: AlreadyMember, a read failure, or TeamAlreadyListed, in that order |
| TeamProperties.AddNewUsersError | api/controller/team.go:113-127 | every error of the new-user loop comes from such a first failing user |
| TeamProperties.AddTeamUsersAccepted | api/controller/team.go:81-130 | AddTeamUsers succeeds exactly when the team, its member list and every member's team list can be read and every new user passes its checks |
| TeamProperties.AddTeamUsersPlan | api/controller/team.go:98-141 | on success the saved and returned member list is the existing members followed by the new users; the map covers exactly these users; existing members keep their lists, and new users get their old list with the team appended |
| TeamProperties.AddTeamUsersRejects | api/controller/team.go:113-127 | with all reads succeeding, the first inadmissible new user gives the response's error |
| TeamProperties.AddTeamUsersErrors | api/controller/team.go:81-127 | every error comes from the first failing check, in source order: team read, member-list read, existing members' lists in stored order, then new users in request order |
| TeamProperties.DeleteMembersAccepted | api/controller/team.go:200-217 | the loop over members succeeds exactly when every member's list can be read and the leaving user's list holds the team |
| TeamProperties.DeleteMembersPlan | api/controller/team.go:197-217 | on success the plan drops the leaving user from the member list, keeping the others in order, swap-removes the team from that user's list, and keeps everyone else's list; earlier entries are unchanged |
| TeamProperties.DeleteMembersError | api/controller/team.go:200-212 | a failure of that loop is the error of the first member that fails: its read error, or InternalServer when the leaving user's list lacks the team |
| TeamProperties.DeleteTeamUserAccepted | api/controller/team.go:170-217 | DeleteTeamUser succeeds exactly when the team and its member list can be read, the user is a member, every member's list can be read, and the leaving user's list holds the team |
| TeamProperties.DeleteTeamUserPlan | api/controller/team.go:197-228 | on success the member list is the old one without the user, in old order; the map covers exactly the old members; the user's list loses exactly one occurrence of the team; the others' lists are unchanged |
| TeamProperties.DeleteTeamUserErrors | api/controller/team.go:170-212 | errors in source order: team read, member-list read, NotFound for a non-member before any team list is read, then members' lists in stored order; a NotFound naming a member arises only for a non-member |
| TeamProperties.AddTeamUsersExample | api/controller/team_test.go:155-219 | the "add successfully" scenario yields the member list and map the test expects; re-adding a member gives InvalidRequest naming that user |
| TeamProperties.DeleteTeamUserExample | api/controller/team_test.go:279-320 | the "user exists" scenario yields the member list and map the test expects; removing a non-member gives NotFound naming that user |
| Membership.SavePreservesConsistency | api/controller/team.go:132 | overwriting one member list and some team lists keeps the indexes consistent when the new lists are duplicate-free, the new member list names exactly the users whose new lists hold the team, and no other team's membership changes |
| Membership.AdditionKeepsConsistency | api/controller/team.go:98-132 | saving the existing members followed by distinct non-member new users that do not list the team, each new user's list gaining the team and every other list written back unchanged, keeps the indexes consistent |
| Membership.RemovalKeepsConsistency | api/controller/team.go:197-221 | saving the member list without the leaving user, that user's list without the team, and every other member's list unchanged keeps the indexes consistent |
| Membership.AddTeamUsersKeepsConsistency | api/controller/team.go:81-141 | from consistent contents, the contents after AddTeamUsers, whatever its outcome, are consistent |
| Membership.DeleteTeamUserKeepsConsistency | api/controller/team.go:170-228 | from consistent contents, the contents after DeleteTeamUser, whatever its outcome, are consistent |
| TeamProperties.AddTeamUsersHidesSaveFailure | api/controller/team.go:132-140 | as written, a failed save answers with the new member list although the stored list is unchanged |
| TeamProperties.DeleteTeamUserHidesSaveFailure | api/controller/team.go:219-227 | as written, a failed save answers with the reduced member list although the user is still stored as a member |
| TeamController.AddTeamUsersReported | api/controller/team.go:132-135 | corrected AddTeamUsers: success exactly when there is a plan and the save succeeded; a failed save gives InternalServer for the membership save, and earlier errors pass through; a success response carries the member list the database now holds; an error response means nothing was written |
| TeamController.DeleteTeamUserReported | api/controller/team.go:219-222 | corrected DeleteTeamUser, with the same guarantee |

## Left out

- The HTTP handlers, request parsing and the DTO conversions are not modelled. Team records
  are compared whole.
- CreateTeam: the ID comes from a random UUID generator. Here it is a parameter, and the
  generator's failure path (an InternalServer response) is not modelled.
- Error messages and `%w` wrapping are reduced to an error kind plus the ID the message names.
- The real database is not modelled: a point read either finds a value, reports "no such key",
  or fails. The multi-key save is taken to be atomic, as the source relies on.
- Concurrency is not modelled. Every operation runs alone against one snapshot, so
  interleaved requests that could lose updates between the reads and the save are not
  captured.
- AddUserTeam: Go's `append` may write into the caller's backing array. The model returns a
  fresh list and does not capture that aliasing.
- RemoveUserTeam: the truncated slice returned shares its backing array with the input. The
  model returns the list's value and states the array's final contents separately.
- The error value returned by the two list helpers is kept only as a failure flag; the
  controller wraps it into its own response, whose text is not modelled.
- Tag controllers and their tests are not part of this model.

## Findings

| source | as written | input that shows it | evidently intended | confidence | as-written member | corrected member |
|---|---|---|---|---|---|---|
| api/controller/team.go:133-135 | AddTeamUsers builds the InternalServer response for a failed save and drops it, then answers with the new member list | team T with members a, b; add c while the database rejects writes: the answer lists a, b, c and the stored list stays a, b | return the save error | high (not executed) | TeamProperties.AddTeamUsersHidesSaveFailure | TeamController.AddTeamUsersReported |
| api/controller/team.go:220-222 | DeleteTeamUser does the same | team T with members u1, u2, u3; remove u1 while the database rejects writes: the answer lists u2, u3 and u1 stays a member | return the save error | high (not executed) | TeamProperties.DeleteTeamUserHidesSaveFailure | TeamController.DeleteTeamUserReported |
