/** The HTTP status codes the controllers answer with. */
module Http {

  const StatusOk := 200
  const StatusCreated := 201
  const StatusBadRequest := 400
  const StatusUnauthorized := 401
  const StatusNotFound := 404
  const StatusConflict := 409
  const StatusUnprocessable := 422
  /** A value of the wrong type reached a typed parameter (a PHP TypeError under `strict_types`). */
  const StatusServerError := 500
}
