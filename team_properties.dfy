/**
 * What the membership engine's responses and write plans contain, stated without reference
 * to the order in which the engine computes them: when a request succeeds, the exact final
 * member list and the exact team list written for every user; when it fails, which check
 * failed first and which error that gives.
 */
module TeamProperties {
  import opened Storage
  import opened Api
  import opened Lists
  import opened TeamController

  // ---------------------------------------------------------------------------------------
  // Checks of AddTeamUsers on a new user

  /**
   * New user `userID` passes AddTeamUsers' checks: not already a member (`taken`), not named
   * earlier in the request (`before`), its team list readable (an absent list is fine) and
   * not already holding the team.
   */
  ghost predicate Admissible(st: Store, teamID: string, taken: set<string>, before: seq<string>, userID: string) {
    && userID !in taken
    && userID !in before
    && UserTeamsKey(userID) !in st.failing
    && teamID !in st.TeamsOf(userID)
  }

  /** The error for a new user that fails a check, the checks taken in the order the source makes them. */
  function Rejection(st: Store, teamID: string, taken: set<string>, before: seq<string>, userID: string): ApiError {
    if userID in taken || userID in before then InvalidRequest(AlreadyMember, userID)
    else if UserTeamsKey(userID) in st.failing then InternalServer(UserTeamsReadFailed)
    else InvalidRequest(TeamAlreadyListed, userID)
  }

  /** Shifting the first new user from the request into the taken names leaves every later check as it was. */
  lemma AdmissibleShift(st: Store, teamID: string, taken: set<string>, pending: seq<string>, j: nat)
    requires 0 < j < |pending|
    ensures pending[..j] == [pending[0]] + pending[1..][..j - 1]
    ensures Admissible(st, teamID, taken + {pending[0]}, pending[1..][..j - 1], pending[1..][j - 1]) <==>
            Admissible(st, teamID, taken, pending[..j], pending[j])
    ensures Rejection(st, teamID, taken + {pending[0]}, pending[1..][..j - 1], pending[1..][j - 1]) ==
            Rejection(st, teamID, taken, pending[..j], pending[j])
  {
    assert pending[..j] == [pending[0]] + pending[1..][..j - 1];
  }

  // ---------------------------------------------------------------------------------------
  // The loop over existing members (AddTeamUsers)

  lemma {:induction false} LoadMembersOutcome(st: Store, pending: seq<string>, acc: Plan)
    ensures LoadMembers(st, pending, acc).Ok? <==> forall u :: u in pending ==> GetUserTeams(st, u).Ok?
    ensures LoadMembers(st, pending, acc).Ok? ==>
              var plan := LoadMembers(st, pending, acc).value;
              && plan.users == acc.users + pending
              && plan.teamsMap.Keys == acc.teamsMap.Keys + Elements(pending)
              && (forall u :: u in pending ==> plan.teamsMap[u] == st.userTeams[u])
              && (forall u :: u in acc.teamsMap && u !in pending ==> plan.teamsMap[u] == acc.teamsMap[u])
    decreases |pending|
  {
    if pending != [] {
      var u, rest := pending[0], pending[1..];
      assert forall x :: x in pending <==> x == u || x in rest;
      if GetUserTeams(st, u).Ok? {
        var next := Plan(acc.users + [u], acc.teamsMap[u := st.userTeams[u]]);
        LoadMembersOutcome(st, rest, next);
        assert acc.users + pending == next.users + rest;
      }
    }
  }

  lemma {:induction false} LoadMembersError(st: Store, pending: seq<string>, acc: Plan, e: ApiError)
    requires LoadMembers(st, pending, acc) == Err(e)
    ensures exists i :: 0 <= i < |pending| && GetUserTeams(st, pending[i]) == Err(e) &&
                        forall k :: 0 <= k < i ==> GetUserTeams(st, pending[k]).Ok?
    decreases |pending|
  {
    var u, rest := pending[0], pending[1..];
    if GetUserTeams(st, u).Ok? {
      LoadMembersError(st, rest, Plan(acc.users + [u], acc.teamsMap[u := st.userTeams[u]]), e);
      var i :| 0 <= i < |rest| && GetUserTeams(st, rest[i]) == Err(e) &&
               forall k :: 0 <= k < i ==> GetUserTeams(st, rest[k]).Ok?;
      assert GetUserTeams(st, pending[i + 1]) == Err(e);
      assert forall k :: 0 < k <= i ==> pending[k] == rest[k - 1];
    } else {
      assert GetUserTeams(st, pending[0]) == Err(e);
    }
  }

  // ---------------------------------------------------------------------------------------
  // The loop over new users (AddTeamUsers)

  /** Checking the request's first user, then the rest with that user taken, checks every user of the request. */
  lemma AdmissibleAll(st: Store, teamID: string, taken: set<string>, pending: seq<string>)
    requires pending != []
    ensures (forall j :: 0 <= j < |pending| ==> Admissible(st, teamID, taken, pending[..j], pending[j])) <==>
            && Admissible(st, teamID, taken, [], pending[0])
            && forall j :: 0 <= j < |pending[1..]| ==>
                 Admissible(st, teamID, taken + {pending[0]}, pending[1..][..j], pending[1..][j])
  {
    var u, rest := pending[0], pending[1..];
    assert pending[..0] == [];
    forall j | 0 < j < |pending| {
      AdmissibleShift(st, teamID, taken, pending, j);
    }
    if forall j :: 0 <= j < |rest| ==> Admissible(st, teamID, taken + {u}, rest[..j], rest[j]) {
      forall j | 0 < j < |pending|
        ensures Admissible(st, teamID, taken, pending[..j], pending[j])
      {
        assert Admissible(st, teamID, taken + {u}, rest[..j - 1], rest[j - 1]);
      }
    }
  }

  /** One step of AddNewUsers: the first new user is either taken into the plan or decides the error. */
  lemma AddNewUsersStep(st: Store, teamID: string, pending: seq<string>, acc: Plan)
    requires pending != []
    ensures var u := pending[0];
            Admissible(st, teamID, acc.teamsMap.Keys, [], u) ==>
              AddNewUsers(st, teamID, pending, acc) ==
              AddNewUsers(st, teamID, pending[1..], Plan(acc.users + [u], acc.teamsMap[u := st.TeamsOf(u) + [teamID]]))
    ensures var u := pending[0];
            !Admissible(st, teamID, acc.teamsMap.Keys, [], u) ==>
              AddNewUsers(st, teamID, pending, acc) == Err(Rejection(st, teamID, acc.teamsMap.Keys, [], u))
  {
  }

  lemma {:induction false} AddNewUsersAccepted(st: Store, teamID: string, pending: seq<string>, acc: Plan)
    ensures AddNewUsers(st, teamID, pending, acc).Ok? <==>
              forall j :: 0 <= j < |pending| ==> Admissible(st, teamID, acc.teamsMap.Keys, pending[..j], pending[j])
    decreases |pending|
  {
    if pending != [] {
      var u, rest := pending[0], pending[1..];
      var taken := acc.teamsMap.Keys;
      AdmissibleAll(st, teamID, taken, pending);
      if Admissible(st, teamID, taken, [], u) {
        var next := Plan(acc.users + [u], acc.teamsMap[u := st.TeamsOf(u) + [teamID]]);
        AddNewUsersStep(st, teamID, pending, acc);
        assert next.teamsMap.Keys == taken + {u};
        AddNewUsersAccepted(st, teamID, rest, next);
      } else {
        AddNewUsersStep(st, teamID, pending, acc);
      }
    }
  }

  lemma AddNewUsersOkStep(st: Store, teamID: string, pending: seq<string>, acc: Plan)
    requires pending != [] && AddNewUsers(st, teamID, pending, acc).Ok?
    ensures var u := pending[0];
            AddNewUsers(st, teamID, pending, acc) ==
            AddNewUsers(st, teamID, pending[1..], Plan(acc.users + [u], acc.teamsMap[u := st.TeamsOf(u) + [teamID]]))
  {
    AddNewUsersStep(st, teamID, pending, acc);
  }

  /** On success, the map gains exactly the new users. */
  lemma {:induction false} AddNewUsersKeys(st: Store, teamID: string, pending: seq<string>, acc: Plan)
    requires AddNewUsers(st, teamID, pending, acc).Ok?
    ensures AddNewUsers(st, teamID, pending, acc).value.teamsMap.Keys == acc.teamsMap.Keys + Elements(pending)
    decreases |pending|
  {
    if pending != [] {
      var u, rest := pending[0], pending[1..];
      var next := Plan(acc.users + [u], acc.teamsMap[u := st.TeamsOf(u) + [teamID]]);
      AddNewUsersOkStep(st, teamID, pending, acc);
      AddNewUsersKeys(st, teamID, rest, next);
      assert next.teamsMap.Keys == acc.teamsMap.Keys + {u};
      ElementsCons(pending);
    }
  }

  /**
   * On success, each new user is mapped to its old team list (absent counting as empty) with
   * the team appended, and the entries made before are unchanged.
   */
  lemma {:induction false} AddNewUsersTeams(st: Store, teamID: string, pending: seq<string>, acc: Plan)
    requires AddNewUsers(st, teamID, pending, acc).Ok?
    ensures var plan := AddNewUsers(st, teamID, pending, acc).value;
            && (forall u :: u in pending ==> u in plan.teamsMap && plan.teamsMap[u] == st.TeamsOf(u) + [teamID])
            && (forall u :: u in acc.teamsMap ==> u in plan.teamsMap && plan.teamsMap[u] == acc.teamsMap[u])
    decreases |pending|
  {
    if pending != [] {
      var u, rest := pending[0], pending[1..];
      var next := Plan(acc.users + [u], acc.teamsMap[u := st.TeamsOf(u) + [teamID]]);
      AddNewUsersStep(st, teamID, pending, acc);
      assert Admissible(st, teamID, acc.teamsMap.Keys, [], u);
      AddNewUsersTeams(st, teamID, rest, next);
      assert forall x :: x in pending ==> x == u || x in rest;
    }
  }

  lemma {:induction false} AddNewUsersPlan(st: Store, teamID: string, pending: seq<string>, acc: Plan)
    requires AddNewUsers(st, teamID, pending, acc).Ok?
    ensures var plan := AddNewUsers(st, teamID, pending, acc).value;
            && plan.users == acc.users + pending
            && plan.teamsMap.Keys == acc.teamsMap.Keys + Elements(pending)
            && (forall u :: u in pending ==> plan.teamsMap[u] == st.TeamsOf(u) + [teamID])
            && (forall u :: u in acc.teamsMap ==> plan.teamsMap[u] == acc.teamsMap[u])
  {
    AddNewUsersKeys(st, teamID, pending, acc);
    AddNewUsersTeams(st, teamID, pending, acc);
  }

  lemma {:induction false} AddNewUsersFirstRejection(st: Store, teamID: string, pending: seq<string>, acc: Plan, j: nat)
    requires j < |pending|
    requires forall k :: 0 <= k < j ==> Admissible(st, teamID, acc.teamsMap.Keys, pending[..k], pending[k])
    requires !Admissible(st, teamID, acc.teamsMap.Keys, pending[..j], pending[j])
    ensures AddNewUsers(st, teamID, pending, acc) == Err(Rejection(st, teamID, acc.teamsMap.Keys, pending[..j], pending[j]))
    decreases j
  {
    var u, rest := pending[0], pending[1..];
    var taken := acc.teamsMap.Keys;
    assert pending[..0] == [];
    if j > 0 {
      assert Admissible(st, teamID, taken, pending[..0], pending[0]);
      var next := Plan(acc.users + [u], acc.teamsMap[u := st.TeamsOf(u) + [teamID]]);
      AddNewUsersStep(st, teamID, pending, acc);
      assert next.teamsMap.Keys == taken + {u};
      forall k | 0 < k <= j {
        AdmissibleShift(st, teamID, taken, pending, k);
      }
      forall k | 0 <= k < j - 1
        ensures Admissible(st, teamID, taken + {u}, rest[..k], rest[k])
      {
        assert Admissible(st, teamID, taken, pending[..k + 1], pending[k + 1]);
      }
      AddNewUsersFirstRejection(st, teamID, rest, next, j - 1);
    }
  }

  lemma {:induction false} AddNewUsersError(st: Store, teamID: string, pending: seq<string>, acc: Plan, e: ApiError)
    requires AddNewUsers(st, teamID, pending, acc) == Err(e)
    ensures exists j :: 0 <= j < |pending|
                        && (forall k :: 0 <= k < j ==> Admissible(st, teamID, acc.teamsMap.Keys, pending[..k], pending[k]))
                        && !Admissible(st, teamID, acc.teamsMap.Keys, pending[..j], pending[j])
                        && e == Rejection(st, teamID, acc.teamsMap.Keys, pending[..j], pending[j])
    decreases |pending|
  {
    var u, rest := pending[0], pending[1..];
    var taken := acc.teamsMap.Keys;
    assert pending[..0] == [];
    AddNewUsersStep(st, teamID, pending, acc);
    if Admissible(st, teamID, taken, [], u) {
      var next := Plan(acc.users + [u], acc.teamsMap[u := st.TeamsOf(u) + [teamID]]);
      assert next.teamsMap.Keys == taken + {u};
      AddNewUsersError(st, teamID, rest, next, e);
      var j :| 0 <= j < |rest|
               && (forall k :: 0 <= k < j ==> Admissible(st, teamID, taken + {u}, rest[..k], rest[k]))
               && !Admissible(st, teamID, taken + {u}, rest[..j], rest[j])
               && e == Rejection(st, teamID, taken + {u}, rest[..j], rest[j]);
      forall k | 0 < k <= j + 1 {
        AdmissibleShift(st, teamID, taken, pending, k);
      }
      forall k | 0 <= k < j + 1
        ensures Admissible(st, teamID, taken, pending[..k], pending[k])
      {
        if k > 0 {
          assert Admissible(st, teamID, taken + {u}, rest[..k - 1], rest[k - 1]);
        }
      }
    } else {
      assert e == Rejection(st, teamID, taken, pending[..0], pending[0]);
    }
  }

  // ---------------------------------------------------------------------------------------
  // AddTeamUsers as a whole

  /**
   * AddTeamUsers succeeds exactly when the team and its member list can be read, every
   * existing member's team list can be read, and every new user passes its checks.
   */
  lemma AddTeamUsersAccepted(st: Store, teamID: string, newUsers: seq<string>)
    ensures AddTeamUsersResult(st, teamID, newUsers).Ok? <==>
              && GetTeam(st, teamID).Ok?
              && GetTeamUsers(st, teamID).Ok?
              && (forall u :: u in st.teamUsers[teamID] ==> GetUserTeams(st, u).Ok?)
              && (forall j :: 0 <= j < |newUsers| ==>
                    Admissible(st, teamID, Elements(st.teamUsers[teamID]), newUsers[..j], newUsers[j]))
  {
    if GetTeam(st, teamID).Ok? && GetTeamUsers(st, teamID).Ok? {
      var existing := st.teamUsers[teamID];
      LoadMembersOutcome(st, existing, EmptyPlan);
      if LoadMembers(st, existing, EmptyPlan).Ok? {
        var loaded := LoadMembers(st, existing, EmptyPlan).value;
        AddNewUsersAccepted(st, teamID, newUsers, loaded);
        if AddNewUsers(st, teamID, newUsers, loaded).Ok? {
          AddNewUsersPlan(st, teamID, newUsers, loaded);
        }
      }
    }
  }

  /**
   * On success, the member list saved and returned is the existing members in stored order
   * followed by the new users in request order; existing members keep their team lists and
   * each new user's list (absent counting as empty) gains the team at the end.
   */
  lemma AddTeamUsersPlan(st: Store, teamID: string, newUsers: seq<string>)
    requires AddTeamUsersResult(st, teamID, newUsers).Ok?
    ensures GetTeamUsers(st, teamID).Ok?
    ensures var plan := AddTeamUsersResult(st, teamID, newUsers).value;
            var existing := st.teamUsers[teamID];
            && plan.users == existing + newUsers
            && plan.teamsMap.Keys == Elements(existing) + Elements(newUsers)
            && (forall u :: u in existing ==> u in st.userTeams && plan.teamsMap[u] == st.userTeams[u])
            && (forall u :: u in newUsers ==> plan.teamsMap[u] == st.TeamsOf(u) + [teamID])
  {
    var existing := st.teamUsers[teamID];
    assert GetTeam(st, teamID).Ok? && GetTeamUsers(st, teamID) == Ok(existing);
    LoadMembersOutcome(st, existing, EmptyPlan);
    var loaded := LoadMembers(st, existing, EmptyPlan).value;
    assert AddTeamUsersResult(st, teamID, newUsers) == AddNewUsers(st, teamID, newUsers, loaded);
    assert loaded.users == existing && loaded.teamsMap.Keys == Elements(existing);
    assert forall u :: u in existing ==> GetUserTeams(st, u).Ok? && loaded.teamsMap[u] == st.userTeams[u];
    AddNewUsersPlan(st, teamID, newUsers, loaded);
  }

  /**
   * When the team, its member list and every existing member's team list can be read, the
   * first new user that fails a check decides the response: InvalidRequest naming that user
   * for a conflict, InternalServer if its team list cannot be read.
   */
  lemma AddTeamUsersRejects(st: Store, teamID: string, newUsers: seq<string>, j: nat)
    requires GetTeam(st, teamID).Ok? && GetTeamUsers(st, teamID).Ok?
    requires forall u :: u in st.teamUsers[teamID] ==> GetUserTeams(st, u).Ok?
    requires j < |newUsers|
    requires forall k :: 0 <= k < j ==> Admissible(st, teamID, Elements(st.teamUsers[teamID]), newUsers[..k], newUsers[k])
    requires !Admissible(st, teamID, Elements(st.teamUsers[teamID]), newUsers[..j], newUsers[j])
    ensures AddTeamUsersResult(st, teamID, newUsers) ==
              Err(Rejection(st, teamID, Elements(st.teamUsers[teamID]), newUsers[..j], newUsers[j]))
  {
    var existing := st.teamUsers[teamID];
    LoadMembersOutcome(st, existing, EmptyPlan);
    var loaded := LoadMembers(st, existing, EmptyPlan).value;
    AddNewUsersFirstRejection(st, teamID, newUsers, loaded, j);
  }

  /**
   * Every error of AddTeamUsers comes from the first check that fails, in source order: the
   * team read, the member-list read, the existing members' team lists in stored order, then
   * the new users in request order.
   */
  lemma AddTeamUsersErrors(st: Store, teamID: string, newUsers: seq<string>, e: ApiError)
    requires AddTeamUsersResult(st, teamID, newUsers) == Err(e)
    ensures GetTeam(st, teamID).Err? ==> e == GetTeam(st, teamID).error
    ensures GetTeam(st, teamID).Ok? && GetTeamUsers(st, teamID).Err? ==> e == GetTeamUsers(st, teamID).error
    ensures GetTeam(st, teamID).Ok? && GetTeamUsers(st, teamID).Ok? ==>
              var existing := st.teamUsers[teamID];
              || (exists i :: 0 <= i < |existing| && GetUserTeams(st, existing[i]) == Err(e) &&
                               forall k :: 0 <= k < i ==> GetUserTeams(st, existing[k]).Ok?)
              || ((forall u :: u in existing ==> GetUserTeams(st, u).Ok?) &&
                  exists j :: 0 <= j < |newUsers|
                              && (forall k :: 0 <= k < j ==> Admissible(st, teamID, Elements(existing), newUsers[..k], newUsers[k]))
                              && !Admissible(st, teamID, Elements(existing), newUsers[..j], newUsers[j])
                              && e == Rejection(st, teamID, Elements(existing), newUsers[..j], newUsers[j]))
  {
    if GetTeam(st, teamID).Ok? && GetTeamUsers(st, teamID).Ok? {
      var existing := st.teamUsers[teamID];
      LoadMembersOutcome(st, existing, EmptyPlan);
      if LoadMembers(st, existing, EmptyPlan).Ok? {
        var loaded := LoadMembers(st, existing, EmptyPlan).value;
        AddNewUsersError(st, teamID, newUsers, loaded, e);
      } else {
        LoadMembersError(st, existing, EmptyPlan, e);
      }
    }
  }

  // ---------------------------------------------------------------------------------------
  // DeleteTeamUser

  /** Member `userID` passes DeleteTeamUser's checks: its team list is readable and, for the leaving user, holds the team. */
  ghost predicate Removable(st: Store, teamID: string, removeUserID: string, userID: string) {
    GetUserTeams(st, userID).Ok? && (userID == removeUserID ==> teamID in st.userTeams[userID])
  }

  /** The error for a member that fails DeleteTeamUser's checks. */
  function RemovalError(st: Store, userID: string): ApiError {
    if GetUserTeams(st, userID).Err? then GetUserTeams(st, userID).error else InternalServer(TeamRemovalFailed)
  }

  /** The team list DeleteTeamUser writes for member `userID`. */
  function NewTeamsOf(st: Store, teamID: string, removeUserID: string, userID: string): seq<string>
    requires userID in st.userTeams && (userID == removeUserID ==> teamID in st.userTeams[userID])
  {
    var teams := st.userTeams[userID];
    if userID == removeUserID then SwapRemove(teams, FirstIndex(teams, teamID)) else teams
  }

  lemma {:induction false} DeleteMembersAccepted(st: Store, teamID: string, removeUserID: string, pending: seq<string>, acc: Plan)
    ensures DeleteMembers(st, teamID, removeUserID, pending, acc).Ok? <==>
              forall u :: u in pending ==> Removable(st, teamID, removeUserID, u)
    decreases |pending|
  {
    if pending != [] {
      var u, rest := pending[0], pending[1..];
      assert forall x :: x in pending <==> x == u || x in rest;
      if Removable(st, teamID, removeUserID, u) {
        var next := if u == removeUserID then Plan(acc.users, acc.teamsMap[u := NewTeamsOf(st, teamID, removeUserID, u)])
                   else Plan(acc.users + [u], acc.teamsMap[u := NewTeamsOf(st, teamID, removeUserID, u)]);
        assert DeleteMembers(st, teamID, removeUserID, pending, acc) == DeleteMembers(st, teamID, removeUserID, rest, next);
        DeleteMembersAccepted(st, teamID, removeUserID, rest, next);
      }
    }
  }

  /** The plan after DeleteTeamUser has taken member `userID` in. */
  function DeleteNext(st: Store, teamID: string, removeUserID: string, userID: string, acc: Plan): Plan
    requires Removable(st, teamID, removeUserID, userID)
  {
    if userID == removeUserID then Plan(acc.users, acc.teamsMap[userID := NewTeamsOf(st, teamID, removeUserID, userID)])
    else Plan(acc.users + [userID], acc.teamsMap[userID := NewTeamsOf(st, teamID, removeUserID, userID)])
  }

  /** One step of DeleteMembers on success: the first member passes its checks and is taken in. */
  lemma DeleteMembersOkStep(st: Store, teamID: string, removeUserID: string, pending: seq<string>, acc: Plan)
    requires pending != [] && DeleteMembers(st, teamID, removeUserID, pending, acc).Ok?
    ensures Removable(st, teamID, removeUserID, pending[0])
    ensures DeleteMembers(st, teamID, removeUserID, pending, acc) ==
            DeleteMembers(st, teamID, removeUserID, pending[1..], DeleteNext(st, teamID, removeUserID, pending[0], acc))
  {
  }

  lemma {:induction false} DeleteMembersKeys(st: Store, teamID: string, removeUserID: string, pending: seq<string>, acc: Plan)
    requires DeleteMembers(st, teamID, removeUserID, pending, acc).Ok?
    ensures DeleteMembers(st, teamID, removeUserID, pending, acc).value.teamsMap.Keys == acc.teamsMap.Keys + Elements(pending)
    decreases |pending|
  {
    if pending != [] {
      var u, rest := pending[0], pending[1..];
      DeleteMembersOkStep(st, teamID, removeUserID, pending, acc);
      var next := DeleteNext(st, teamID, removeUserID, u, acc);
      DeleteMembersKeys(st, teamID, removeUserID, rest, next);
      assert next.teamsMap.Keys == acc.teamsMap.Keys + {u};
      ElementsCons(pending);
    }
  }

  lemma {:induction false} DeleteMembersTeams(st: Store, teamID: string, removeUserID: string, pending: seq<string>, acc: Plan)
    requires DeleteMembers(st, teamID, removeUserID, pending, acc).Ok?
    ensures var plan := DeleteMembers(st, teamID, removeUserID, pending, acc).value;
            && (forall u :: u in pending ==>
                  Removable(st, teamID, removeUserID, u) && u in plan.teamsMap &&
                  plan.teamsMap[u] == NewTeamsOf(st, teamID, removeUserID, u))
            && (forall u :: u in acc.teamsMap && u !in pending ==> u in plan.teamsMap && plan.teamsMap[u] == acc.teamsMap[u])
    decreases |pending|
  {
    if pending != [] {
      var u, rest := pending[0], pending[1..];
      DeleteMembersOkStep(st, teamID, removeUserID, pending, acc);
      var next := DeleteNext(st, teamID, removeUserID, u, acc);
      DeleteMembersTeams(st, teamID, removeUserID, rest, next);
      assert forall x :: x in pending <==> x == u || x in rest;
    }
  }

  lemma {:induction false} DeleteMembersPlan(st: Store, teamID: string, removeUserID: string, pending: seq<string>, acc: Plan)
    requires DeleteMembers(st, teamID, removeUserID, pending, acc).Ok?
    ensures var plan := DeleteMembers(st, teamID, removeUserID, pending, acc).value;
            && plan.users == acc.users + Without(pending, removeUserID)
            && plan.teamsMap.Keys == acc.teamsMap.Keys + Elements(pending)
            && (forall u :: u in pending ==>
                  Removable(st, teamID, removeUserID, u) && plan.teamsMap[u] == NewTeamsOf(st, teamID, removeUserID, u))
            && (forall u :: u in acc.teamsMap && u !in pending ==> plan.teamsMap[u] == acc.teamsMap[u])
  {
    DeleteMembersKeys(st, teamID, removeUserID, pending, acc);
    DeleteMembersTeams(st, teamID, removeUserID, pending, acc);
  }

  lemma {:induction false} DeleteMembersError(st: Store, teamID: string, removeUserID: string, pending: seq<string>, acc: Plan, e: ApiError)
    requires DeleteMembers(st, teamID, removeUserID, pending, acc) == Err(e)
    ensures exists i :: 0 <= i < |pending| && !Removable(st, teamID, removeUserID, pending[i]) &&
                        e == RemovalError(st, pending[i]) &&
                        forall k :: 0 <= k < i ==> Removable(st, teamID, removeUserID, pending[k])
    decreases |pending|
  {
    var u, rest := pending[0], pending[1..];
    if Removable(st, teamID, removeUserID, u) {
      var next := if u == removeUserID then Plan(acc.users, acc.teamsMap[u := NewTeamsOf(st, teamID, removeUserID, u)])
                 else Plan(acc.users + [u], acc.teamsMap[u := NewTeamsOf(st, teamID, removeUserID, u)]);
      assert DeleteMembers(st, teamID, removeUserID, pending, acc) == DeleteMembers(st, teamID, removeUserID, rest, next);
      DeleteMembersError(st, teamID, removeUserID, rest, next, e);
      var i :| 0 <= i < |rest| && !Removable(st, teamID, removeUserID, rest[i]) &&
               e == RemovalError(st, rest[i]) &&
               forall k :: 0 <= k < i ==> Removable(st, teamID, removeUserID, rest[k]);
      assert pending[i + 1] == rest[i];
      assert forall k :: 0 < k <= i ==> pending[k] == rest[k - 1];
    } else {
      assert e == RemovalError(st, pending[0]);
    }
  }

  /**
   * DeleteTeamUser succeeds exactly when the team and its member list can be read, the user is
   * a member, every member's team list can be read and the leaving user's list holds the team.
   */
  lemma DeleteTeamUserAccepted(st: Store, teamID: string, removeUserID: string)
    ensures DeleteTeamUserResult(st, teamID, removeUserID).Ok? <==>
              && GetTeam(st, teamID).Ok?
              && GetTeamUsers(st, teamID).Ok?
              && removeUserID in st.teamUsers[teamID]
              && (forall u :: u in st.teamUsers[teamID] ==> Removable(st, teamID, removeUserID, u))
  {
    if GetTeam(st, teamID).Ok? && GetTeamUsers(st, teamID).Ok? {
      DeleteMembersAccepted(st, teamID, removeUserID, st.teamUsers[teamID], EmptyPlan);
    }
  }

  /**
   * On success, the member list saved and returned is the old one without the leaving user, in
   * the old order; every member is in the map, the leaving user's list having lost exactly one
   * occurrence of the team and everyone else's being unchanged.
   */
  lemma DeleteTeamUserPlan(st: Store, teamID: string, removeUserID: string)
    requires DeleteTeamUserResult(st, teamID, removeUserID).Ok?
    ensures GetTeamUsers(st, teamID).Ok? && removeUserID in st.userTeams
    ensures var plan := DeleteTeamUserResult(st, teamID, removeUserID).value;
            var existing := st.teamUsers[teamID];
            && plan.users == Without(existing, removeUserID)
            && plan.teamsMap.Keys == Elements(existing)
            && (forall u :: u in existing && u != removeUserID ==> u in st.userTeams && plan.teamsMap[u] == st.userTeams[u])
            && multiset(plan.teamsMap[removeUserID]) == multiset(st.userTeams[removeUserID]) - multiset{teamID}
  {
    var existing := st.teamUsers[teamID];
    DeleteMembersPlan(st, teamID, removeUserID, existing, EmptyPlan);
    var teams := st.userTeams[removeUserID];
    SwapRemoveMultiset(teams, FirstIndex(teams, teamID));
  }

  /**
   * Every error of DeleteTeamUser comes from the first check that fails, in source order: the
   * team read, the member-list read, membership of the user (before any team list is read),
   * then the members' team lists in stored order. NotFound naming a member arises only when
   * that user is not in the member list.
   */
  lemma DeleteTeamUserErrors(st: Store, teamID: string, removeUserID: string, e: ApiError)
    requires DeleteTeamUserResult(st, teamID, removeUserID) == Err(e)
    ensures GetTeam(st, teamID).Err? ==> e == GetTeam(st, teamID).error
    ensures GetTeam(st, teamID).Ok? && GetTeamUsers(st, teamID).Err? ==> e == GetTeamUsers(st, teamID).error
    ensures GetTeam(st, teamID).Ok? && GetTeamUsers(st, teamID).Ok? && removeUserID !in st.teamUsers[teamID] ==>
              e == NotFound(Member, removeUserID)
    ensures GetTeam(st, teamID).Ok? && GetTeamUsers(st, teamID).Ok? && removeUserID in st.teamUsers[teamID] ==>
              var existing := st.teamUsers[teamID];
              exists i :: 0 <= i < |existing| && !Removable(st, teamID, removeUserID, existing[i]) &&
                          e == RemovalError(st, existing[i]) &&
                          forall k :: 0 <= k < i ==> Removable(st, teamID, removeUserID, existing[k])
    ensures e.NotFound? && e.missing == Member ==>
              GetTeamUsers(st, teamID).Ok? && removeUserID !in st.teamUsers[teamID] && e.id == removeUserID
  {
    if GetTeam(st, teamID).Ok? && GetTeamUsers(st, teamID).Ok? && removeUserID in st.teamUsers[teamID] {
      DeleteMembersError(st, teamID, removeUserID, st.teamUsers[teamID], EmptyPlan, e);
    }
  }

  // ---------------------------------------------------------------------------------------
  // The scenarios of the source's tests

  /** Members ["a", "b"], each listing team "T"; adding "c", whose team list is empty, and adding "a" again. */
  lemma AddTeamUsersExample()
    ensures var st := Store(map["T" := TeamRecord("", "")], map["T" := ["a", "b"]],
                            map["a" := ["T"], "b" := ["T"], "c" := []], {});
            && AddTeamUsersResult(st, "T", ["c"]) ==
                 Ok(Plan(["a", "b", "c"], map["a" := ["T"], "b" := ["T"], "c" := ["T"]]))
            && AddTeamUsersResult(st, "T", ["a"]) == Err(InvalidRequest(AlreadyMember, "a"))
  {
    var st := Store(map["T" := TeamRecord("", "")], map["T" := ["a", "b"]],
                    map["a" := ["T"], "b" := ["T"], "c" := []], {});
    var loaded := Plan(["a", "b"], map["a" := ["T"], "b" := ["T"]]);
    assert ["a", "b"][1..] == ["b"] && ["b"][1..] == [] && ["c"][1..] == [];
    assert GetUserTeams(st, "a") == Ok(["T"]) && GetUserTeams(st, "b") == Ok(["T"]);
    assert LoadMembers(st, ["a", "b"], EmptyPlan) == LoadMembers(st, ["b"], Plan([] + ["a"], map["a" := ["T"]]));
    assert [] + ["a"] == ["a"] && ["a"] + ["b"] == ["a", "b"];
    assert LoadMembers(st, ["b"], Plan(["a"], map["a" := ["T"]])) == LoadMembers(st, [], loaded);
    assert "c" !in loaded.teamsMap && st.GetUserTeams("c") == Found([]);
    assert AddUserTeam("T", []) == Returned(["T"], false);
    assert AddNewUsers(st, "T", ["c"], loaded) == AddNewUsers(st, "T", [], Plan(["a", "b"] + ["c"], loaded.teamsMap["c" := ["T"]]));
    assert ["a", "b"] + ["c"] == ["a", "b", "c"];
    assert AddNewUsers(st, "T", ["a"], loaded) == Err(InvalidRequest(AlreadyMember, "a"));
  }

  /** Members ["u1", "u2", "u3"], each listing team "T"; removing "u1", and removing a non-member. */
  lemma DeleteTeamUserExample()
    ensures var st := Store(map["T" := TeamRecord("", "")], map["T" := ["u1", "u2", "u3"]],
                            map["u1" := ["T"], "u2" := ["T"], "u3" := ["T"]], {});
            && DeleteTeamUserResult(st, "T", "u1") ==
                 Ok(Plan(["u2", "u3"], map["u1" := [], "u2" := ["T"], "u3" := ["T"]]))
            && DeleteTeamUserResult(st, "T", "u4") == Err(NotFound(Member, "u4"))
  {
    var st := Store(map["T" := TeamRecord("", "")], map["T" := ["u1", "u2", "u3"]],
                    map["u1" := ["T"], "u2" := ["T"], "u3" := ["T"]], {});
    var members := ["u1", "u2", "u3"];
    assert members[1..] == ["u2", "u3"] && members[1..][1..] == ["u3"] && members[1..][1..][1..] == [];
    assert FirstIndex(["T"], "T") == 0;
    assert SwapRemove(["T"], 0) == [];
    var afterFirst := Plan([], map["u1" := []]);
    assert GetUserTeams(st, "u1") == Ok(["T"]) && GetUserTeams(st, "u2") == Ok(["T"]) && GetUserTeams(st, "u3") == Ok(["T"]);
    assert DeleteMembers(st, "T", "u1", members, EmptyPlan) == DeleteMembers(st, "T", "u1", members[1..], afterFirst);
    var afterSecond := Plan([] + ["u2"], map["u1" := [], "u2" := ["T"]]);
    assert DeleteMembers(st, "T", "u1", members[1..], afterFirst) == DeleteMembers(st, "T", "u1", ["u3"], afterSecond);
    assert [] + ["u2"] == ["u2"] && ["u2"] + ["u3"] == ["u2", "u3"];
    assert DeleteMembers(st, "T", "u1", members, EmptyPlan) ==
             Ok(Plan(["u2", "u3"], map["u1" := [], "u2" := ["T"], "u3" := ["T"]]));
    assert "u4" !in members;
  }

  // ---------------------------------------------------------------------------------------
  // The dropped save error

  /**
   * As written, AddTeamUsers answers a request whose save fails exactly as one whose save
   * succeeds: adding "c" to the team of the scenario above, with the database rejecting writes,
   * answers with the member list ["a", "b", "c"] while the stored list stays ["a", "b"].
   */
  lemma AddTeamUsersHidesSaveFailure()
    ensures var st := Store(map["T" := TeamRecord("", "")], map["T" := ["a", "b"]],
                            map["a" := ["T"], "b" := ["T"], "c" := []], {});
            var res := AddTeamUsersResult(st, "T", ["c"]);
            && Members(res) == Ok(["a", "b", "c"])
            && Committed(st, "T", res, true).teamUsers["T"] == ["a", "b"]
            && Reported(res, true) == Err(InternalServer(MembersSaveFailed))
  {
    AddTeamUsersExample();
  }

  /**
   * As written, DeleteTeamUser answers a request whose save fails exactly as one whose save
   * succeeds: removing "u1" with the database rejecting writes answers ["u2", "u3"] while "u1"
   * stays a member.
   */
  lemma DeleteTeamUserHidesSaveFailure()
    ensures var st := Store(map["T" := TeamRecord("", "")], map["T" := ["u1", "u2", "u3"]],
                            map["u1" := ["T"], "u2" := ["T"], "u3" := ["T"]], {});
            var res := DeleteTeamUserResult(st, "T", "u1");
            && Members(res) == Ok(["u2", "u3"])
            && Committed(st, "T", res, true).teamUsers["T"] == ["u1", "u2", "u3"]
            && Reported(res, true) == Err(InternalServer(MembersSaveFailed))
  {
    DeleteTeamUserExample();
  }
}
