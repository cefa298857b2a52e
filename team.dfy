/**
 * The team controller: reads and updates of team records, and the membership engine that adds
 * users to a team or removes one while keeping the forward index (team to members) and the
 * reverse index (user to teams) in step.
 *
 * Every operation reads the database first and ends with at most one write. The reference
 * functions below (LoadMembers, AddNewUsers, DeleteMembers and the two *Result functions)
 * define, per input, the response and the write plan; the methods compute the same by loops
 * over the lists they read, and TeamProperties states what the plans contain.
 */
module TeamController {
  import opened Storage
  import opened Api
  import opened Lists

  // ---------------------------------------------------------------------------------------
  // Reads, with the "no such key" signal mapped to NotFound and any other error to InternalServer

  function GetTeam(st: Store, teamID: string): (r: Response<TeamRecord>)
    ensures r.Ok? <==> TeamKey(teamID) !in st.failing && teamID in st.teams
    ensures r.Ok? ==> r.value == st.teams[teamID]
    ensures r == Err(NotFound(Team, teamID)) <==> TeamKey(teamID) !in st.failing && teamID !in st.teams
    ensures r == Err(InternalServer(TeamReadFailed)) <==> TeamKey(teamID) in st.failing
  {
    match st.GetTeam(teamID)
    case Found(team) => Ok(team)
    case Absent => Err(NotFound(Team, teamID))
    case Failed => Err(InternalServer(TeamReadFailed))
  }

  function GetUserTeams(st: Store, userID: string): (r: Response<seq<string>>)
    ensures r.Ok? <==> UserTeamsKey(userID) !in st.failing && userID in st.userTeams
    ensures r.Ok? ==> r.value == st.userTeams[userID]
    ensures r == Err(NotFound(UserTeams, userID)) <==> UserTeamsKey(userID) !in st.failing && userID !in st.userTeams
    ensures r == Err(InternalServer(UserTeamsReadFailed)) <==> UserTeamsKey(userID) in st.failing
  {
    match st.GetUserTeams(userID)
    case Found(teams) => Ok(teams)
    case Absent => Err(NotFound(UserTeams, userID))
    case Failed => Err(InternalServer(UserTeamsReadFailed))
  }

  function GetTeamUsers(st: Store, teamID: string): (r: Response<seq<string>>)
    ensures r.Ok? <==> TeamUsersKey(teamID) !in st.failing && teamID in st.teamUsers
    ensures r.Ok? ==> r.value == st.teamUsers[teamID]
    ensures r == Err(NotFound(TeamUsers, teamID)) <==> TeamUsersKey(teamID) !in st.failing && teamID !in st.teamUsers
    ensures r == Err(InternalServer(TeamUsersReadFailed)) <==> TeamUsersKey(teamID) in st.failing
  {
    match st.GetTeamUsers(teamID)
    case Found(users) => Ok(users)
    case Absent => Err(NotFound(TeamUsers, teamID))
    case Failed => Err(InternalServer(TeamUsersReadFailed))
  }

  // ---------------------------------------------------------------------------------------
  // Team records

  /**
   * Stores a team under a freshly generated ID; the ID is a parameter here. No existence
   * check is made, so a colliding ID would overwrite the existing record.
   */
  method CreateTeam(db: Database, teamID: string, team: TeamRecord) returns (r: Response<string>)
    modifies db
    ensures db.saveFails == old(db.saveFails)
    ensures old(db.saveFails) ==> r == Err(InternalServer(TeamSaveFailed)) && db.store == old(db.store)
    ensures !old(db.saveFails) ==> r == Ok(teamID) && db.store == old(db.store).WithTeam(teamID, team)
    ensures r.Ok? && TeamKey(teamID) !in db.store.failing ==> GetTeam(db.store, teamID) == Ok(team)
  {
    var failed := db.SaveTeam(teamID, team);
    if failed {
      return Err(InternalServer(TeamSaveFailed));
    }
    return Ok(teamID);
  }

  /** Overwrites an existing team record; a team that cannot be read is reported as by GetTeam. */
  method UpdateTeam(db: Database, teamID: string, team: TeamRecord) returns (r: Response<string>)
    modifies db
    ensures db.saveFails == old(db.saveFails)
    ensures GetTeam(old(db.store), teamID).Err? ==>
              r == Err(GetTeam(old(db.store), teamID).error) && db.store == old(db.store)
    ensures GetTeam(old(db.store), teamID).Ok? && old(db.saveFails) ==>
              r == Err(InternalServer(TeamSaveFailed)) && db.store == old(db.store)
    ensures GetTeam(old(db.store), teamID).Ok? && !old(db.saveFails) ==>
              r == Ok(teamID) && db.store == old(db.store).WithTeam(teamID, team)
    ensures r.Ok? ==> GetTeam(db.store, teamID) == Ok(team)
  {
    var existing := GetTeam(db.store, teamID);
    if existing.Err? {
      return Err(existing.error);
    }
    var failed := db.SaveTeam(teamID, team);
    if failed {
      return Err(InternalServer(TeamSaveFailed));
    }
    return Ok(teamID);
  }

  // ---------------------------------------------------------------------------------------
  // Team-list helpers

  /** A Go-style pair: the list returned, and whether an error was returned with it. */
  datatype Returned = Returned(teams: seq<string>, failed: bool)

  /** Appends `teamID` to a user's team list, refusing (with an empty list) if it is already there. */
  function AddUserTeam(teamID: string, teams: seq<string>): (r: Returned)
    ensures r.failed <==> teamID in teams
    ensures r.failed ==> r.teams == []
    ensures !r.failed ==> |r.teams| == |teams| + 1 && r.teams[..|teams|] == teams && r.teams[|teams|] == teamID
    ensures !r.failed && NoDuplicates(teams) ==> NoDuplicates(r.teams)
  {
    if teamID in teams then Returned([], true)
    else
      assert NoDuplicates(teams) ==> NoDuplicates(teams + [teamID]) by {
        if NoDuplicates(teams) {
          AppendUnique(teams, [teamID]);
        }
      }
      Returned(teams + [teamID], false)
  }

  /**
   * Removes `teamID` from a user's team list held in `teams`: the first occurrence is
   * overwritten by the last cell, the last cell is blanked, and the list one shorter is
   * returned. If `teamID` is not there the array is untouched and an error is returned with
   * an empty list.
   */
  method RemoveUserTeam(teamID: string, teams: array<string>) returns (rest: seq<string>, failed: bool)
    modifies teams
    ensures failed <==> teamID !in old(teams[..])
    ensures failed ==> rest == [] && teams[..] == old(teams[..])
    ensures !failed ==>
              rest == SwapRemove(old(teams[..]), FirstIndex(old(teams[..]), teamID)) &&
              teams[..] == rest + [""]
  {
    var n := teams.Length;
    for i := 0 to n
      invariant forall k :: 0 <= k < i ==> teams[k] != teamID
      invariant teams[..] == old(teams[..])
    {
      if teams[i] == teamID {
        ghost var before := teams[..];
        assert FirstIndex(before, teamID) == i;
        teams[i] := teams[n - 1];
        teams[n - 1] := "";
        rest := teams[..n - 1];
        assert rest == SwapRemove(before, i);
        assert teams[..] == rest + [""];
        return rest, false;
      }
    }
    assert forall k :: 0 <= k < n ==> teams[..][k] != teamID;
    return [], true;
  }

  // ---------------------------------------------------------------------------------------
  // Membership engine: reference definitions

  /** What a membership change writes: the team's final member list and the users' new team lists. */
  datatype Plan = Plan(users: seq<string>, teamsMap: map<string, seq<string>>)

  const EmptyPlan := Plan([], map[])

  /**
   * The database contents after a membership change: the plan is saved when there is one and
   * the database accepts writes; otherwise nothing changes.
   */
  function Committed(st: Store, teamID: string, res: Response<Plan>, saveFails: bool): Store {
    if res.Ok? && !saveFails then st.WithTeamsAndUsers(teamID, res.value.users, res.value.teamsMap)
    else st
  }

  /**
   * Reads the team list of each existing member in turn, adding the member and the list to `acc`.
   * On success every member follows `acc` in stored order; the only errors are those of a
   * team-list read.
   */
  function LoadMembers(st: Store, pending: seq<string>, acc: Plan): (r: Response<Plan>)
    ensures r.Ok? ==> r.value.users == acc.users + pending
    ensures r.Err? ==> r.error == InternalServer(UserTeamsReadFailed) || (r.error.NotFound? && r.error.missing == UserTeams)
    decreases |pending|
  {
    if pending == [] then Ok(acc)
    else
      var userID := pending[0];
      match GetUserTeams(st, userID)
      case Err(e) => Err(e)
      case Ok(teams) =>
        assert acc.users + pending == acc.users + [userID] + pending[1..];
        LoadMembers(st, pending[1..], Plan(acc.users + [userID], acc.teamsMap[userID := teams]))
  }

  /**
   * Validates each new user in input order against the working map `acc.teamsMap`, adding the
   * user with `teamID` appended to their team list (an absent list counting as empty).
   * On success the new users follow `acc` in input order. A missing team list is never an
   * error here: the loop fails only on a conflict or a failed read.
   */
  function AddNewUsers(st: Store, teamID: string, pending: seq<string>, acc: Plan): (r: Response<Plan>)
    ensures r.Ok? ==> r.value.users == acc.users + pending
    ensures r.Err? ==> r.error.InvalidRequest? || r.error == InternalServer(UserTeamsReadFailed)
    decreases |pending|
  {
    if pending == [] then Ok(acc)
    else
      var userID := pending[0];
      if userID in acc.teamsMap then Err(InvalidRequest(AlreadyMember, userID))
      else
        var read := st.GetUserTeams(userID);
        if read.Failed? then Err(InternalServer(UserTeamsReadFailed))
        else
          var added := AddUserTeam(teamID, if read.Found? then read.value else []);
          if added.failed then Err(InvalidRequest(TeamAlreadyListed, userID))
          else
            assert acc.users + pending == acc.users + [userID] + pending[1..];
            AddNewUsers(st, teamID, pending[1..], Plan(acc.users + [userID], acc.teamsMap[userID := added.teams]))
  }

  /**
   * What AddTeamUsers answers and writes, given the database contents. A success needs the
   * team and its member list, and the final member list is the stored one followed by the new
   * users.
   */
  function AddTeamUsersResult(st: Store, teamID: string, newUsers: seq<string>): (r: Response<Plan>)
    ensures r.Ok? ==> GetTeam(st, teamID).Ok? && GetTeamUsers(st, teamID).Ok?
    ensures r.Ok? ==> r.value.users == GetTeamUsers(st, teamID).value + newUsers
  {
    match GetTeam(st, teamID)
    case Err(e) => Err(e)
    case Ok(_) =>
      match GetTeamUsers(st, teamID)
      case Err(e) => Err(e)
      case Ok(existingUsers) =>
        match LoadMembers(st, existingUsers, EmptyPlan)
        case Err(e) => Err(e)
        case Ok(loaded) => AddNewUsers(st, teamID, newUsers, loaded)
  }

  /**
   * Reads the team list of each member in turn: the leaving user's list loses `teamID`
   * (swap-removal; an error if it is not there), everyone else's list is kept, and everyone
   * but the leaving user stays in the member list. On success the members other than the
   * leaving user follow `acc` in stored order; the only errors are those of a team-list read
   * and a leaving user whose list lacks the team.
   */
  function DeleteMembers(st: Store, teamID: string, removeUserID: string, pending: seq<string>, acc: Plan): (r: Response<Plan>)
    ensures r.Ok? ==> r.value.users == acc.users + Without(pending, removeUserID)
    ensures r.Err? ==> || r.error == InternalServer(TeamRemovalFailed)
                       || r.error == InternalServer(UserTeamsReadFailed)
                       || (r.error.NotFound? && r.error.missing == UserTeams)
    decreases |pending|
  {
    if pending == [] then Ok(acc)
    else
      var userID := pending[0];
      match GetUserTeams(st, userID)
      case Err(e) => Err(e)
      case Ok(teams) =>
        if userID == removeUserID then
          if teamID in teams then
            DeleteMembers(st, teamID, removeUserID, pending[1..],
                          Plan(acc.users, acc.teamsMap[userID := SwapRemove(teams, FirstIndex(teams, teamID))]))
          else Err(InternalServer(TeamRemovalFailed))
        else
          assert acc.users + Without(pending, removeUserID) == acc.users + [userID] + Without(pending[1..], removeUserID);
          DeleteMembers(st, teamID, removeUserID, pending[1..],
                        Plan(acc.users + [userID], acc.teamsMap[userID := teams]))
  }

  /**
   * What DeleteTeamUser answers and writes, given the database contents. A success needs the
   * team, and a member list that holds the leaving user; the final member list is that list
   * without the user.
   */
  function DeleteTeamUserResult(st: Store, teamID: string, removeUserID: string): (r: Response<Plan>)
    ensures r.Ok? ==> GetTeam(st, teamID).Ok? && GetTeamUsers(st, teamID).Ok?
    ensures r.Ok? ==> removeUserID in GetTeamUsers(st, teamID).value
    ensures r.Ok? ==> r.value.users == Without(GetTeamUsers(st, teamID).value, removeUserID)
  {
    match GetTeam(st, teamID)
    case Err(e) => Err(e)
    case Ok(_) =>
      match GetTeamUsers(st, teamID)
      case Err(e) => Err(e)
      case Ok(existingUsers) =>
        if removeUserID !in existingUsers then Err(NotFound(Member, removeUserID))
        else DeleteMembers(st, teamID, removeUserID, existingUsers, EmptyPlan)
  }

  // ---------------------------------------------------------------------------------------
  // Membership engine: the operations

  /** The response the source gives once the plan is known: the final member list, the save's outcome ignored. */
  function Members(res: Response<Plan>): (r: Response<seq<string>>)
    ensures r.Ok? <==> res.Ok?
    ensures r.Ok? ==> r.value == res.value.users
    ensures r.Err? ==> r.error == res.error
  {
    match res
    case Ok(plan) => Ok(plan.users)
    case Err(e) => Err(e)
  }

  /**
   * The reads and checks of AddTeamUsers, up to the save: every read sees the same contents,
   * since nothing is written before the save. Existing members keep their order and their team
   * lists; the new users follow in input order, each with `teamID` appended to their list.
   */
  method PlanAddTeamUsers(st: Store, teamID: string, newUsers: seq<string>) returns (res: Response<Plan>)
    ensures res == AddTeamUsersResult(st, teamID, newUsers)
  {
    var team := GetTeam(st, teamID);
    if team.Err? {
      return Err(team.error);
    }
    var existing := GetTeamUsers(st, teamID);
    if existing.Err? {
      return Err(existing.error);
    }
    var existingUsers := existing.value;
    var teamsMap: map<string, seq<string>> := map[];
    var finalUsers: seq<string> := [];

    for i := 0 to |existingUsers|
      invariant LoadMembers(st, existingUsers, EmptyPlan) ==
                LoadMembers(st, existingUsers[i..], Plan(finalUsers, teamsMap))
    {
      assert existingUsers[i..][1..] == existingUsers[i + 1..];
      var userID := existingUsers[i];
      var userTeams := GetUserTeams(st, userID);
      if userTeams.Err? {
        return Err(userTeams.error);
      }
      teamsMap := teamsMap[userID := userTeams.value];
      finalUsers := finalUsers + [userID];
    }
    assert existingUsers[|existingUsers|..] == [];
    ghost var loaded := Plan(finalUsers, teamsMap);

    for i := 0 to |newUsers|
      invariant AddNewUsers(st, teamID, newUsers, loaded) ==
                AddNewUsers(st, teamID, newUsers[i..], Plan(finalUsers, teamsMap))
    {
      assert newUsers[i..][1..] == newUsers[i + 1..];
      var userID := newUsers[i];
      if userID in teamsMap {
        return Err(InvalidRequest(AlreadyMember, userID));
      }
      var read := st.GetUserTeams(userID);
      if read.Failed? {
        return Err(InternalServer(UserTeamsReadFailed));
      }
      var userTeams := if read.Found? then read.value else [];
      var added := AddUserTeam(teamID, userTeams);
      if added.failed {
        return Err(InvalidRequest(TeamAlreadyListed, userID));
      }
      teamsMap := teamsMap[userID := added.teams];
      finalUsers := finalUsers + [userID];
    }
    assert newUsers[|newUsers|..] == [];

    return Ok(Plan(finalUsers, teamsMap));
  }

  /**
   * The reads and checks of DeleteTeamUser, up to the save. The other members keep their order
   * and their team lists; the leaving user's list loses `teamID`, worked on in a fresh array as
   * the source works on the slice it read.
   */
  method PlanDeleteTeamUser(st: Store, teamID: string, removeUserID: string) returns (res: Response<Plan>)
    ensures res == DeleteTeamUserResult(st, teamID, removeUserID)
  {
    var team := GetTeam(st, teamID);
    if team.Err? {
      return Err(team.error);
    }
    var existing := GetTeamUsers(st, teamID);
    if existing.Err? {
      return Err(existing.error);
    }
    var existingUsers := existing.value;

    var userFound := false;
    for i := 0 to |existingUsers|
      invariant userFound <==> removeUserID in existingUsers[..i]
    {
      assert existingUsers[..i + 1] == existingUsers[..i] + [existingUsers[i]];
      if existingUsers[i] == removeUserID {
        userFound := true;
      }
    }
    assert existingUsers[..|existingUsers|] == existingUsers;
    if !userFound {
      return Err(NotFound(Member, removeUserID));
    }
    res := PlanRemoval(st, teamID, removeUserID, existingUsers);
  }

  /**
   * The loop over the members of DeleteTeamUser: each member's team list is read; the leaving
   * user's list loses the team in place, everyone else is kept in the member list.
   */
  method PlanRemoval(st: Store, teamID: string, removeUserID: string, existingUsers: seq<string>) returns (res: Response<Plan>)
    ensures res == DeleteMembers(st, teamID, removeUserID, existingUsers, EmptyPlan)
  {
    var teamsMap: map<string, seq<string>> := map[];
    var finalUsers: seq<string> := [];
    for i := 0 to |existingUsers|
      invariant DeleteMembers(st, teamID, removeUserID, existingUsers, EmptyPlan) ==
                DeleteMembers(st, teamID, removeUserID, existingUsers[i..], Plan(finalUsers, teamsMap))
    {
      assert existingUsers[i..][1..] == existingUsers[i + 1..];
      var userID := existingUsers[i];
      var read := GetUserTeams(st, userID);
      if read.Err? {
        return Err(read.error);
      }
      var userTeams := read.value;
      if userID == removeUserID {
        var cells := new string[|userTeams|](k requires 0 <= k < |userTeams| => userTeams[k]);
        assert cells[..] == userTeams;
        var rest, failed := RemoveUserTeam(teamID, cells);
        if failed {
          return Err(InternalServer(TeamRemovalFailed));
        }
        userTeams := rest;
      } else {
        finalUsers := finalUsers + [userID];
      }
      teamsMap := teamsMap[userID := userTeams];
    }
    assert existingUsers[|existingUsers|..] == [];

    return Ok(Plan(finalUsers, teamsMap));
  }

  /**
   * Adds `newUsers` to the team, as written: any conflict rejects the whole request before
   * anything is written, and a failed save is not reported, so the response is the same as
   * if it had succeeded.
   */
  method AddTeamUsers(db: Database, teamID: string, newUsers: seq<string>) returns (r: Response<seq<string>>)
    modifies db
    ensures db.saveFails == old(db.saveFails)
    ensures r == Members(AddTeamUsersResult(old(db.store), teamID, newUsers))
    ensures db.store == Committed(old(db.store), teamID, AddTeamUsersResult(old(db.store), teamID, newUsers), old(db.saveFails))
  {
    var res := PlanAddTeamUsers(db.store, teamID, newUsers);
    if res.Err? {
      return Err(res.error);
    }
    // the source builds an error response here and drops it
    var _ := db.SaveTeamsAndUsers(teamID, res.value.users, res.value.teamsMap);
    return Ok(res.value.users);
  }

  /** Removes `removeUserID` from the team, as written: a failed save is not reported. */
  method DeleteTeamUser(db: Database, teamID: string, removeUserID: string) returns (r: Response<seq<string>>)
    modifies db
    ensures db.saveFails == old(db.saveFails)
    ensures r == Members(DeleteTeamUserResult(old(db.store), teamID, removeUserID))
    ensures db.store == Committed(old(db.store), teamID, DeleteTeamUserResult(old(db.store), teamID, removeUserID), old(db.saveFails))
  {
    var res := PlanDeleteTeamUser(db.store, teamID, removeUserID);
    if res.Err? {
      return Err(res.error);
    }
    // the source builds an error response here and drops it
    var _ := db.SaveTeamsAndUsers(teamID, res.value.users, res.value.teamsMap);
    return Ok(res.value.users);
  }

  // ---------------------------------------------------------------------------------------
  // Membership engine with the save error returned

  /** The response with a failed save reported as InternalServer. */
  function Reported(res: Response<Plan>, saveFails: bool): (r: Response<seq<string>>)
    ensures r.Ok? <==> res.Ok? && !saveFails
    ensures r.Ok? ==> r.value == res.value.users
    ensures res.Err? ==> r == Err(res.error)
    ensures res.Ok? && saveFails ==> r == Err(InternalServer(MembersSaveFailed))
  {
    if res.Ok? && saveFails then Err(InternalServer(MembersSaveFailed)) else Members(res)
  }

  /**
   * AddTeamUsers with the save error returned instead of dropped: a success response now means
   * the returned member list is what the database holds, and an error means nothing changed.
   */
  method AddTeamUsersReported(db: Database, teamID: string, newUsers: seq<string>) returns (r: Response<seq<string>>)
    modifies db
    ensures db.saveFails == old(db.saveFails)
    ensures r == Reported(AddTeamUsersResult(old(db.store), teamID, newUsers), old(db.saveFails))
    ensures db.store == Committed(old(db.store), teamID, AddTeamUsersResult(old(db.store), teamID, newUsers), old(db.saveFails))
    ensures r.Ok? ==> GetTeamUsers(db.store, teamID) == r || TeamUsersKey(teamID) in db.store.failing
    ensures r.Err? ==> db.store == old(db.store)
  {
    var res := PlanAddTeamUsers(db.store, teamID, newUsers);
    if res.Err? {
      return Err(res.error);
    }
    var failed := db.SaveTeamsAndUsers(teamID, res.value.users, res.value.teamsMap);
    if failed {
      return Err(InternalServer(MembersSaveFailed));
    }
    return Ok(res.value.users);
  }

  /** DeleteTeamUser with the save error returned instead of dropped. */
  method DeleteTeamUserReported(db: Database, teamID: string, removeUserID: string) returns (r: Response<seq<string>>)
    modifies db
    ensures db.saveFails == old(db.saveFails)
    ensures r == Reported(DeleteTeamUserResult(old(db.store), teamID, removeUserID), old(db.saveFails))
    ensures db.store == Committed(old(db.store), teamID, DeleteTeamUserResult(old(db.store), teamID, removeUserID), old(db.saveFails))
    ensures r.Ok? ==> GetTeamUsers(db.store, teamID) == r || TeamUsersKey(teamID) in db.store.failing
    ensures r.Err? ==> db.store == old(db.store)
  {
    var res := PlanDeleteTeamUser(db.store, teamID, removeUserID);
    if res.Err? {
      return Err(res.error);
    }
    var failed := db.SaveTeamsAndUsers(teamID, res.value.users, res.value.teamsMap);
    if failed {
      return Err(InternalServer(MembersSaveFailed));
    }
    return Ok(res.value.users);
  }
}
