/** The Express error handler: a total map from a thrown error's code to an
    HTTP status and a JSON body `{ error }`. */
module ErrorMiddleware {
  import opened Store

  /** `next(err)` when the response has started, else a reply `{ error }`. */
  datatype Outcome = PassOn(err: Failure) | Reply(status: int, error: string)

  const INTERNAL_ERROR := "Internal server error"

  /** `errorMiddleware(err, req, res, next)`. */
  function Handle(err: Failure, headersSent: bool): (o: Outcome)
    ensures headersSent <==> o.PassOn?
  {
    if headersSent then PassOn(err)
    else if err.code == VALIDATION_ERROR then Reply(400, err.message)
    else if err.code == INVALID_CREDENTIALS || err.code == UNAUTHENTICATED then Reply(401, err.message)
    else if err.code == FORBIDDEN then Reply(403, err.message)
    else if err.code == NOT_FOUND then Reply(404, err.message)
    else if err.code == NOT_ENOUGH_CAPACITY then Reply(409, err.message)
    else Reply(500, INTERNAL_ERROR)
  }

  /** The statuses of the codes the handler knows, as a table. */
  const KnownStatus: map<string, int> := map[
    VALIDATION_ERROR := 400,
    INVALID_CREDENTIALS := 401,
    UNAUTHENTICATED := 401,
    FORBIDDEN := 403,
    NOT_FOUND := 404,
    NOT_ENOUGH_CAPACITY := 409]

  /** The handler agrees with the table: a known code replies with its status
      and the error's own message; any other code replies 500 with a fixed
      text, so no internal message leaks; after headers are sent nothing is
      written and the error is passed on. */
  lemma HandleMatchesTable(err: Failure, headersSent: bool)
    ensures headersSent ==> Handle(err, headersSent) == PassOn(err)
    ensures !headersSent && err.code in KnownStatus
            ==> Handle(err, headersSent) == Reply(KnownStatus[err.code], err.message)
    ensures !headersSent && err.code !in KnownStatus
            ==> Handle(err, headersSent) == Reply(500, INTERNAL_ERROR)
  {
  }

  /** A reply's body is the error's message exactly when its status is not
      500, and every status is one of the six the handler writes. */
  lemma ReplyShape(err: Failure)
    ensures var o := Handle(err, false);
            && o.Reply?
            && o.status in {400, 401, 403, 404, 409, 500}
            && (o.status == 500 ==> o.error == INTERNAL_ERROR)
            && (o.status != 500 ==> o.error == err.message && err.code in KnownStatus)
  {
  }

  /** Every business-rule code the services throw, except EMAIL_EXISTS (which
      the auth controller answers itself), has a status of its own. */
  lemma BusinessCodesAreMapped(message: string)
    ensures Handle(Failure(VALIDATION_ERROR, message), false) == Reply(400, message)
    ensures Handle(Failure(INVALID_CREDENTIALS, message), false) == Reply(401, message)
    ensures Handle(Failure(UNAUTHENTICATED, message), false) == Reply(401, message)
    ensures Handle(Failure(FORBIDDEN, message), false) == Reply(403, message)
    ensures Handle(Failure(NOT_FOUND, message), false) == Reply(404, message)
    ensures Handle(Failure(NOT_ENOUGH_CAPACITY, message), false) == Reply(409, message)
    ensures Handle(Failure(EMAIL_EXISTS, message), false) == Reply(500, INTERNAL_ERROR)
  {
  }
}
