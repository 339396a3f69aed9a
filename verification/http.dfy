/** The HTTP replies the controllers send: a status code and which message goes with it. */
module Http {

  /** The table a 404 or an invalid-reference 400 is about. */
  datatype Table =
    | EmployeeTable | SessionTable | PeriodeTable | DestinationTable | InscriptionTable | SelectionTable

  /** Why a request was refused with 400. */
  datatype Reason =
    | MissingFields            // a required body field is absent or falsy
    | InvalidType              // a value outside an allowed enumeration
    | InvalidDateOrder         // start date not before end date
    | InvalidReference(what: Table)  // a referenced row does not exist
    | DeadlinePassed           // the registration deadline of the session's period has passed
    | TooFewCandidates         // fewer than 3 active inscriptions for the session
    | InvalidEmailFormat
    | InvalidPasswordFormat
    | InvalidOrExpiredToken
    | AlreadyVerified

  /** Which uniqueness rule a 409 is about. */
  datatype Clash =
    | AlreadyRegistered        // (employee, session) inscription pair
    | AlreadySelected          // (session, employee) selection pair
    | SessionOverlap           // another session at the destination intersects the dates
    | DestinationName          // case-insensitive destination name
    | EmailInUse
    | MatriculeInUse

  datatype Response =
    | Ok
    | Created
    | BadRequest(reason: Reason)
    | Unauthorized             // "Invalid credentials"
    | Forbidden                // code EMAIL_NOT_VERIFIED
    | NotFound(what: Table)
    | Conflict(clash: Clash)

  /** The numeric status code of a response. */
  function Code(r: Response): (c: int)
    ensures 200 <= c < 500
    ensures c < 300 <==> r.Ok? || r.Created?
  {
    match r
    case Ok => 200
    case Created => 201
    case BadRequest(_) => 400
    case Unauthorized => 401
    case Forbidden => 403
    case NotFound(_) => 404
    case Conflict(_) => 409
  }
}
