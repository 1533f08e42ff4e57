/**
 * What the admin API handlers answer: a status code with the meaning
 * section 15 of RFC 9110 gives it, and a JSON body (or none).
 */
module Http {
  import opened PolicyData

  const Ok := 200                  // section 15.3.1 of RFC 9110
  const BadRequest := 400          // section 15.5.1
  const Unauthorized := 401        // section 15.5.2
  const MethodNotAllowed := 405    // section 15.5.6
  const InternalServerError := 500 // section 15.6.1

  /** The JSON sent back, if any. */
  datatype Body =
    | NoBody                                         // res.status(...).end()
    | Acknowledged                                   // { ok: true }
    | Error(message: string)                         // { error: message }
    | Counts(passports: nat, totalEntries: nat)      // { ok: true, passports, totalEntries }
    | Rows(rows: seq<Row>)                           // the rows the store returned

  datatype Response = Response(status: int, body: Body)
}
