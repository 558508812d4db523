/** Values shared by the three handlers: absence, HTTP outcomes, and the
    store failures a handler can observe. */
module Outcomes {

  /** A request field or a nullable column: `None` is JavaScript's
      `undefined` for a field and SQL `NULL` for a column. */
  datatype Option<+T> = None | Some(value: T)

  /** Why a handler answered 400. */
  datatype Rejection =
    | InvalidStatusValues(values: seq<string>)   // GET /goals?status=…
    | InvalidTargetAmount                        // POST /goals
    | ActiveGoalExists                           // POST /goals
    | InvalidTargetStatus                        // PATCH /goals/:id
    | AlreadyInStatus(status: string)            // PATCH /goals/:id
    | MissingRequiredFields                      // POST /investments
    | InvalidInvestmentType                      // POST /investments

  /** The HTTP outcome of a handler; the 401 of the access gate is a
      precondition of every handler instead. */
  datatype Response<+T> =
    | Ok(body: T)               // 200
    | Created(body: T)          // 201
    | BadRequest(reason: Rejection)  // 400
    | NotFound                  // 404
    | ServerError               // 500

  /** Which store statement of a handler reports an error: the first
      lookup or query, the write (INSERT, UPDATE or DELETE), or the read
      of the written row that follows it. A handler consults only the
      flags of the statements it reaches. */
  datatype StoreFaults = StoreFaults(read: bool, write: bool, readBack: bool)
}
