/**
 * The key-value database as the team controller sees it: a team record per team ID, the
 * forward index (team ID to its ordered member list) and the reverse index (user ID to the
 * list of teams the user belongs to). The real database is not part of this model; only the
 * effect of its point reads and of its two writes is.
 */
module Storage {

  /** A team record: display name and description. */
  datatype TeamRecord = TeamRecord(name: string, description: string)

  /** The three kinds of record the controller reads. */
  datatype Key = TeamKey(teamID: string) | TeamUsersKey(teamID: string) | UserTeamsKey(userID: string)

  /**
   * The outcome of a point read: the stored value, the database's "no such key" signal,
   * or any other database error.
   */
  datatype Read<T> = Found(value: T) | Absent | Failed

  /**
   * The database contents at one moment. `failing` lists the keys whose reads currently fail
   * with an error other than "no such key" (a lost connection, say); it stands for the
   * error a test double would inject.
   */
  datatype Store = Store(
    teams: map<string, TeamRecord>,
    teamUsers: map<string, seq<string>>,
    userTeams: map<string, seq<string>>,
    failing: set<Key>)
  {
    function GetTeam(teamID: string): Read<TeamRecord> {
      if TeamKey(teamID) in failing then Failed
      else if teamID in teams then Found(teams[teamID])
      else Absent
    }

    function GetTeamUsers(teamID: string): Read<seq<string>> {
      if TeamUsersKey(teamID) in failing then Failed
      else if teamID in teamUsers then Found(teamUsers[teamID])
      else Absent
    }

    function GetUserTeams(userID: string): Read<seq<string>> {
      if UserTeamsKey(userID) in failing then Failed
      else if userID in userTeams then Found(userTeams[userID])
      else Absent
    }

    /** The user's stored team list, an absent record counting as the empty list. */
    function TeamsOf(userID: string): seq<string> {
      if userID in userTeams then userTeams[userID] else []
    }

    /** The contents after a successful SaveTeam: the record is written, whether or not it existed. */
    function WithTeam(teamID: string, team: TeamRecord): Store {
      this.(teams := teams[teamID := team])
    }

    /**
     * The contents after a successful SaveTeamsAndUsers: the team's member list is overwritten
     * and so is the team list of every user the map names; nothing else changes.
     */
    function WithTeamsAndUsers(teamID: string, users: seq<string>, teamsMap: map<string, seq<string>>): Store {
      this.(teamUsers := teamUsers[teamID := users], userTeams := userTeams + teamsMap)
    }
  }

  /**
   * The database object the controller is handed. `saveFails` says whether the database
   * currently rejects writes; a rejected write changes nothing (the multi-key save is atomic).
   */
  class Database {
    var store: Store
    var saveFails: bool

    constructor (store: Store, saveFails: bool)
      ensures this.store == store && this.saveFails == saveFails
    {
      this.store := store;
      this.saveFails := saveFails;
    }

    method SaveTeam(teamID: string, team: TeamRecord) returns (failed: bool)
      modifies this
      ensures failed == saveFails && saveFails == old(saveFails)
      ensures store == if failed then old(store) else old(store).WithTeam(teamID, team)
    {
      failed := saveFails;
      if !failed {
        store := store.WithTeam(teamID, team);
      }
    }

    method SaveTeamsAndUsers(teamID: string, users: seq<string>, teamsMap: map<string, seq<string>>)
      returns (failed: bool)
      modifies this
      ensures failed == saveFails && saveFails == old(saveFails)
      ensures store == if failed then old(store) else old(store).WithTeamsAndUsers(teamID, users, teamsMap)
    {
      failed := saveFails;
      if !failed {
        store := store.WithTeamsAndUsers(teamID, users, teamsMap);
      }
    }
  }
}
