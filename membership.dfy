/**
 * The invariant the two membership changes exist to keep: the forward index (team to member
 * list) and the reverse index (user to team list) describe the same relation, and no list
 * names anything twice. AddTeamUsers and DeleteTeamUser each rewrite one member list and the
 * team lists of the members involved in a single save; these lemmas show that, applied to a
 * consistent database, the save leaves it consistent, and that a rejected request or a
 * rejected save leaves it as it was.
 */
module Membership {
  import opened Storage
  import opened Lists
  import opened TeamController
  import opened TeamProperties

  /** `x` is in the list stored under `k`. */
  predicate Listed(m: map<string, seq<string>>, k: string, x: string) {
    k in m && x in m[k]
  }

  /** The two indexes agree and every stored list is duplicate-free. */
  ghost predicate Consistent(st: Store) {
    && (forall t, u :: Listed(st.teamUsers, t, u) <==> Listed(st.userTeams, u, t))
    && (forall t :: t in st.teamUsers ==> NoDuplicates(st.teamUsers[t]))
    && (forall u :: u in st.userTeams ==> NoDuplicates(st.userTeams[u]))
  }

  /**
   * The shape shared by both membership saves: overwriting one team's member list and some
   * users' team lists keeps the database consistent when the new lists are duplicate-free,
   * the new member list names exactly the users whose new team lists hold the team, and the
   * new team lists agree with the old ones about every other team.
   */
  lemma SavePreservesConsistency(st: Store, teamID: string, users: seq<string>, teamsMap: map<string, seq<string>>)
    requires Consistent(st)
    requires NoDuplicates(users)
    requires forall u :: u in teamsMap ==> NoDuplicates(teamsMap[u])
    requires forall u :: u in users <==> Listed(st.userTeams + teamsMap, u, teamID)
    requires forall u, t :: t != teamID ==> (Listed(st.userTeams + teamsMap, u, t) <==> Listed(st.userTeams, u, t))
    ensures Consistent(st.WithTeamsAndUsers(teamID, users, teamsMap))
  {
    var after := st.WithTeamsAndUsers(teamID, users, teamsMap);
    forall t, u
      ensures Listed(after.teamUsers, t, u) <==> Listed(after.userTeams, u, t)
    {
      if t == teamID {
        assert Listed(after.teamUsers, t, u) <==> u in users;
      } else {
        assert Listed(after.teamUsers, t, u) <==> Listed(st.teamUsers, t, u);
      }
    }
    forall u | u in after.userTeams
      ensures NoDuplicates(after.userTeams[u])
    {
      if u !in teamsMap {
        assert after.userTeams[u] == st.userTeams[u];
      }
    }
  }

  /** A user's stored team list, absent or not, has no duplicates in a consistent database. */
  lemma TeamsOfUnique(st: Store, userID: string)
    requires Consistent(st)
    ensures NoDuplicates(st.TeamsOf(userID))
  {
  }

  /**
   * The save AddTeamUsers makes keeps the database consistent: the new users, none of them a
   * member or listing the team and none named twice, follow the existing members; each gets
   * the team appended to their team list, and every existing member's list is written back
   * unchanged.
   */
  lemma AdditionKeepsConsistency(st: Store, teamID: string, newUsers: seq<string>, teamsMap: map<string, seq<string>>)
    requires Consistent(st)
    requires teamID in st.teamUsers
    requires teamsMap.Keys == Elements(st.teamUsers[teamID]) + Elements(newUsers)
    requires forall u :: u in st.teamUsers[teamID] ==> u in st.userTeams && teamsMap[u] == st.userTeams[u]
    requires forall u :: u in newUsers ==> teamsMap[u] == st.TeamsOf(u) + [teamID]
    requires forall j :: 0 <= j < |newUsers| ==>
               newUsers[j] !in st.teamUsers[teamID] && newUsers[j] !in newUsers[..j] && teamID !in st.TeamsOf(newUsers[j])
    ensures Consistent(st.WithTeamsAndUsers(teamID, st.teamUsers[teamID] + newUsers, teamsMap))
  {
    var existing := st.teamUsers[teamID];
    var userTeams := st.userTeams + teamsMap;
    forall j | 0 <= j < |newUsers|
      ensures forall i :: 0 <= i < j ==> newUsers[i] != newUsers[j]
    {
      assert forall i :: 0 <= i < j ==> newUsers[i] in newUsers[..j];
    }
    assert forall u :: u in newUsers ==> u !in existing;
    AppendUnique(existing, newUsers);
    forall u | u in teamsMap
      ensures NoDuplicates(teamsMap[u])
    {
      if u !in existing {
        TeamsOfUnique(st, u);
        AppendUnique(st.TeamsOf(u), [teamID]);
      }
    }
    forall u
      ensures u in existing + newUsers <==> Listed(userTeams, u, teamID)
    {
      if u in existing {
        assert Listed(st.teamUsers, teamID, u);
      } else if u !in newUsers {
        assert !Listed(st.teamUsers, teamID, u);
      }
    }
    forall u, t | t != teamID
      ensures Listed(userTeams, u, t) <==> Listed(st.userTeams, u, t)
    {
      if u in newUsers && u !in existing {
        assert userTeams[u] == st.TeamsOf(u) + [teamID];
      }
    }
    SavePreservesConsistency(st, teamID, existing + newUsers, teamsMap);
  }

  /**
   * AddTeamUsers keeps the database consistent: the new users join the member list and get
   * the team appended to their team lists, and nobody else's lists change.
   */
  lemma AddTeamUsersKeepsConsistency(st: Store, teamID: string, newUsers: seq<string>, saveFails: bool)
    requires Consistent(st)
    ensures Consistent(Committed(st, teamID, AddTeamUsersResult(st, teamID, newUsers), saveFails))
  {
    var res := AddTeamUsersResult(st, teamID, newUsers);
    if res.Ok? && !saveFails {
      AddTeamUsersAccepted(st, teamID, newUsers);
      AddTeamUsersPlan(st, teamID, newUsers);
      var existing := st.teamUsers[teamID];
      forall j | 0 <= j < |newUsers|
        ensures newUsers[j] !in existing && newUsers[j] !in newUsers[..j] && teamID !in st.TeamsOf(newUsers[j])
      {
        assert Admissible(st, teamID, Elements(existing), newUsers[..j], newUsers[j]);
      }
      AdditionKeepsConsistency(st, teamID, newUsers, res.value.teamsMap);
    }
  }

  /**
   * The save DeleteTeamUser makes keeps the database consistent: the member list loses the
   * leaving user, that user's list loses the team and nothing else, and every other member's
   * list is written back unchanged.
   */
  lemma RemovalKeepsConsistency(st: Store, teamID: string, removeUserID: string, users: seq<string>,
                                teamsMap: map<string, seq<string>>)
    requires Consistent(st)
    requires teamID in st.teamUsers && removeUserID in st.teamUsers[teamID]
    requires users == Without(st.teamUsers[teamID], removeUserID)
    requires teamsMap.Keys == Elements(st.teamUsers[teamID])
    requires forall u :: u in teamsMap && u != removeUserID ==> u in st.userTeams && teamsMap[u] == st.userTeams[u]
    requires removeUserID in st.userTeams && NoDuplicates(teamsMap[removeUserID])
    requires forall x :: x in teamsMap[removeUserID] <==> x in st.userTeams[removeUserID] && x != teamID
    ensures Consistent(st.WithTeamsAndUsers(teamID, users, teamsMap))
  {
    var existing := st.teamUsers[teamID];
    WithoutUnique(existing, removeUserID);
    var userTeams := st.userTeams + teamsMap;
    forall u
      ensures u in users <==> Listed(userTeams, u, teamID)
    {
      if u in existing && u != removeUserID {
        assert Listed(st.teamUsers, teamID, u);
      } else if u !in existing {
        assert !Listed(st.teamUsers, teamID, u);
      }
    }
    SavePreservesConsistency(st, teamID, users, teamsMap);
  }

  /**
   * DeleteTeamUser keeps the database consistent: the user leaves the member list, one
   * occurrence of the team leaves the user's team list, and nobody else's lists change.
   */
  lemma DeleteTeamUserKeepsConsistency(st: Store, teamID: string, removeUserID: string, saveFails: bool)
    requires Consistent(st)
    ensures Consistent(Committed(st, teamID, DeleteTeamUserResult(st, teamID, removeUserID), saveFails))
  {
    var res := DeleteTeamUserResult(st, teamID, removeUserID);
    if res.Ok? && !saveFails {
      DeleteTeamUserAccepted(st, teamID, removeUserID);
      DeleteTeamUserPlan(st, teamID, removeUserID);
      var existing, plan := st.teamUsers[teamID], res.value;
      assert res == DeleteMembers(st, teamID, removeUserID, existing, EmptyPlan);
      DeleteMembersPlan(st, teamID, removeUserID, existing, EmptyPlan);
      var before := st.userTeams[removeUserID];
      SwapRemoveMembers(before, FirstIndex(before, teamID));
      assert plan.teamsMap[removeUserID] == SwapRemove(before, FirstIndex(before, teamID));
      RemovalKeepsConsistency(st, teamID, removeUserID, plan.users, plan.teamsMap);
    }
  }
}
