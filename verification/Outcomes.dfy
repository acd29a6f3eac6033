// Failure-carrying values shared by every component of the SDK model.
module Outcomes {

  datatype Option<+T> = None | Some(value: T) {
    function GetOr(default: T): T {
      if Some? then value else default
    }
  }

  datatype Result<+T, +E> = Ok(value: T) | Err(error: E)

  /** Why a Security Event Token was refused (src/error.rs). */
  datatype Reason =
    | Malformed | InvalidType | InvalidKey | InvalidIssuer | InvalidAudience | InvalidRequest | Replayed

  /** The SDK's error, down to the two distinctions the modelled code makes:
      is it a transport failure, and does it carry a SET reason code. */
  datatype AxiamError = Auth(setReason: Option<Reason>) | Authz | Network {
    function SetFailureReason(): Option<Reason> {
      if Auth? then setReason else None
    }
  }
}
