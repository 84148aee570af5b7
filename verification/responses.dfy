/** The HTTP answers the handlers produce, with their status codes. */
module Responses {
  import opened Wrappers
  import opened Database

  /** The columns the stats endpoint selects from each owned referral. */
  datatype Summary = Summary(status: string, program: string)

  datatype Response =
    | Created(referrer: Referrer, referral: Referral)
    | ReferralFound(referral: Referral, owner: Option<Referrer>)
    | StatsFound(referrer: Referrer, referrals: seq<Summary>)
    | StatusUpdated(updated: Referral)
    | BadRequest(error: string)
    | NotFound(error: string)
    | ServerError

  function Code(r: Response): nat {
    match r
    case Created(_, _) => 201
    case ReferralFound(_, _) => 200
    case StatsFound(_, _) => 200
    case StatusUpdated(_) => 200
    case BadRequest(_) => 400
    case NotFound(_) => 404
    case ServerError => 500
  }

  /** The `error` text of a failed response; every 500 hides its cause. */
  function ErrorText(r: Response): string {
    match r
    case BadRequest(e) => e
    case NotFound(e) => e
    case ServerError => "Internal server error"
    case _ => ""
  }
}
