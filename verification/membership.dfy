/** The organisation-membership decision of `is_bioconda_member`. */
module Membership {

  /** GitHub answers a membership query for a member with 204 No Content. */
  const NoContent := 204

  /** The user counts as a member exactly when GitHub answered 204. The code
      starts from 404 and keeps it when `raise_for_status` raises, which it
      does for every status of 400 and above, the bare `except` swallowing
      the error; below 400 the response status is kept. So a 404, any other
      error status and any other success status all say no. */
  function IsBiocondaMember(status: int): (member: bool)
    ensures member <==> status == NoContent
  {
    var rc := if status >= 400 then 404 else status;
    rc == NoContent
  }
}
