/** The HTTP statuses the handlers answer with. */
module Http {
  datatype Status =
    | OK                   // 200
    | Created              // 201
    | BadRequest           // 400
    | Unauthorized         // 401
    | Forbidden            // 403
    | NotFound             // 404
    | Conflict             // 409
    | InternalServerError  // 500
}
