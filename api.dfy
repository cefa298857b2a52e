/**
 * The controller's error responses. The source renders each error with a message naming the
 * offending team or user; here the message is reduced to what kind of thing was missing or in
 * conflict, plus the ID it names.
 */
module Api {

  /** What a NotFound response reports as missing. */
  datatype Missing =
    | Team       // "cannot find team"
    | TeamUsers  // "cannot find team users"
    | UserTeams  // "cannot find user teams"
    | Member     // "user that you specified not found in this team"

  /** Why an InvalidRequest response rejects a request. */
  datatype Conflict =
    | AlreadyMember      // the user is already in the team, or named twice in the request
    | TeamAlreadyListed  // the team is already in the user's team list

  /** Which step an InternalServer response reports as failed. */
  datatype Failure =
    | TeamReadFailed
    | TeamUsersReadFailed
    | UserTeamsReadFailed
    | TeamSaveFailed     // the team record could not be written
    | MembersSaveFailed  // the member list and the members' team lists could not be written
    | TeamRemovalFailed  // the team was missing from the leaving user's list

  datatype ApiError =
    | NotFound(missing: Missing, id: string)
    | InvalidRequest(conflict: Conflict, id: string)
    | InternalServer(failure: Failure)

  /** A controller result: the payload, or the error response. */
  datatype Response<T> = Ok(value: T) | Err(error: ApiError)
}
