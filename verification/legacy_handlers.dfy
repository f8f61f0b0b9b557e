/**
  The older package `handlers`, which duplicates registration and login and
  builds its success bodies as string maps instead of response structs. Both
  encode to the same JSON object, so the responses are modelled with the same
  `Handler.Response`, and the two packages are proved to answer alike.
*/
module LegacyHandlers {
  import opened Wrappers
  import opened Repository
  import Handler

  /** `handlers.RegisterUser`. */
  function RegisterUser(db: Database, h: Hasher, request: Option<Handler.Credentials>): (r: Handler.Registration)
    ensures r.response.status == Handler.StatusBadRequest <==>
      request.None? || request.value.userName == "" || request.value.password == ""
    ensures r.response.status == Handler.StatusConflict <==>
      && request.Some? && request.value.userName != "" && request.value.password != ""
      && h.generate(request.value.password).Some? && db.available && HasUser(db, request.value.userName)
    ensures r.response.status == Handler.StatusCreated ==>
      r.response.body == Handler.Fields(map["status" := "user created"])
    ensures r.response.status != Handler.StatusCreated ==> r.db == db
  {
    if request.None? then
      Handler.Registration(Handler.ErrorResponse(Handler.StatusBadRequest, "invalid request body"), db)
    else if request.value.userName == "" || request.value.password == "" then
      Handler.Registration(Handler.ErrorResponse(Handler.StatusBadRequest, "username and password required"), db)
    else
      var change := CreateUser(db, h, request.value.userName, request.value.password);
      if change.err == Some(ErrUserAlreadyExists) then
        Handler.Registration(Handler.ErrorResponse(Handler.StatusConflict, "user already exists"), change.db)
      else if change.err.Some? then
        Handler.Registration(Handler.ErrorResponse(Handler.StatusInternalServerError, "failed to create user"), change.db)
      else
        Handler.Registration(Handler.Response(Handler.StatusCreated, Handler.Fields(map["status" := "user created"])), change.db)
  }

  /** `handlers.LoginUser`. */
  function LoginUser(db: Database, h: Hasher, issue: Handler.TokenIssuer, request: Option<Handler.Credentials>): (r: Handler.Response)
    ensures r.status == Handler.StatusBadRequest <==>
      request.None? || request.value.userName == "" || request.value.password == ""
    ensures r.status == Handler.StatusUnauthorized ==> r == Handler.Unauthorized
    ensures r.status == Handler.StatusOK ==>
      r.body.Fields? && "access_token" in r.body.fields
      && "token_type" in r.body.fields && r.body.fields["token_type"] == "Bearer"
  {
    if request.None? then
      Handler.ErrorResponse(Handler.StatusBadRequest, "invalid request body")
    else if request.value.userName == "" || request.value.password == "" then
      Handler.ErrorResponse(Handler.StatusBadRequest, "username and password required")
    else
      var found := GetUserByCredentialsAsWritten(db, h, request.value.userName, request.value.password);
      if found.Err? && (found.error == ErrInvalidCredentials || found.error == ErrRecordNotFound) then
        Handler.ErrorResponse(Handler.StatusUnauthorized, "invalid username or password")
      else if found.Err? then
        Handler.ErrorResponse(Handler.StatusInternalServerError, "failed to find the user")
      else
        var token := issue(found.value.id);
        if token.None? then
          Handler.ErrorResponse(Handler.StatusInternalServerError, "failed to get token")
        else
          Handler.Response(Handler.StatusOK, Handler.Fields(map["access_token" := token.value, "token_type" := "Bearer"]))
  }

  /** The older registration answers every request exactly as the routed handler does. */
  lemma RegisterMatchesHandler(db: Database, h: Hasher, request: Option<Handler.Credentials>)
    ensures RegisterUser(db, h, request) == Handler.RegisterUser(db, h, request)
  {
  }

  /** The older login answers every request exactly as the routed handler does. */
  lemma LoginMatchesHandler(db: Database, h: Hasher, issue: Handler.TokenIssuer, request: Option<Handler.Credentials>)
    ensures LoginUser(db, h, issue, request) == Handler.LoginUser(db, h, issue, request)
  {
  }
}
