/**
  The HTTP handlers of package `handler`, reduced to their decisions: which
  status code and JSON body each outcome of request validation, of the
  repository and of token issuing produces. JSON decoding is reduced to
  `Option<Credentials>` (`None` when the body does not decode) and the query
  string to `ListingParams` (an absent parameter reads as the empty string).
*/
module Handler {
  import opened Wrappers
  import opened Strconv
  import opened ProductQuery
  import opened Repository

  const StatusOK: int := 200
  const StatusCreated: int := 201
  const StatusBadRequest: int := 400
  const StatusUnauthorized: int := 401
  const StatusConflict: int := 409
  const StatusInternalServerError: int := 500

  /** `RegisterUserRequest` and `LoginUserRequest`. */
  datatype Credentials = Credentials(userName: string, password: string)

  /** `ProductResponse`. */
  datatype ProductResponse = ProductResponse(id: nat, name: string, priceCents: Int64)

  /** A JSON body: an object of string fields, or the listing object `{"items": [...]}`. */
  datatype Body = Fields(fields: map<string, string>) | Items(items: seq<ProductResponse>)

  datatype Response = Response(status: int, body: Body)

  /** `ErrorResponse{Error: message}` written with `status`. */
  function ErrorResponse(status: int, message: string): Response {
    Response(status, Fields(map["error" := message]))
  }

  /** The one response for an unknown user name and for a wrong password alike. */
  const Unauthorized: Response := ErrorResponse(StatusUnauthorized, "invalid username or password")

  /** Token issuing (`auth.GenerateJWTToken`) as an oracle from user id to a token or failure. */
  type TokenIssuer = nat -> Option<string>

  predicate Complete(c: Credentials) {
    c.userName != "" && c.password != ""
  }

  datatype Registration = Registration(response: Response, db: Database)

  /** `RegisterUser`. */
  function RegisterUser(db: Database, h: Hasher, request: Option<Credentials>): (r: Registration)
    ensures r.response.status == StatusBadRequest <==> request.None? || !Complete(request.value)
    ensures r.response.status == StatusCreated <==>
      && request.Some? && Complete(request.value)
      && h.generate(request.value.password).Some? && db.available && !HasUser(db, request.value.userName)
    ensures r.response.status == StatusConflict <==>
      && request.Some? && Complete(request.value)
      && h.generate(request.value.password).Some? && db.available && HasUser(db, request.value.userName)
    ensures r.response.status == StatusInternalServerError <==>
      && request.Some? && Complete(request.value)
      && (h.generate(request.value.password).None? || !db.available)
    ensures r.response.status == StatusCreated ==>
      && r.db == AddUser(db, request.value.userName, h.generate(request.value.password).value)
      && r.response.body == Fields(map["status" := "user created"])
    ensures r.response.status != StatusCreated ==> r.db == db
  {
    match request
    case None => Registration(ErrorResponse(StatusBadRequest, "invalid request body"), db)
    case Some(c) =>
      if c.userName == "" || c.password == "" then
        Registration(ErrorResponse(StatusBadRequest, "username and password required"), db)
      else
        var change := CreateUser(db, h, c.userName, c.password);
        match change.err
        case None => Registration(Response(StatusCreated, Fields(map["status" := "user created"])), change.db)
        case Some(e) =>
          if e == ErrUserAlreadyExists then
            Registration(ErrorResponse(StatusConflict, "user already exists"), change.db)
          else
            Registration(ErrorResponse(StatusInternalServerError, "failed to create user"), change.db)
  }

  /** `LoginUser`. */
  function LoginUser(db: Database, h: Hasher, issue: TokenIssuer, request: Option<Credentials>): (r: Response)
    ensures r.status == StatusBadRequest <==> request.None? || !Complete(request.value)
    ensures Valid(db) ==>
      (r.status == StatusUnauthorized <==>
        request.Some? && Complete(request.value) && db.available
        && !CredentialsMatch(db, h, request.value.userName, request.value.password))
    ensures r.status == StatusUnauthorized ==> r == Unauthorized
    ensures r.status == StatusOK ==>
      && request.Some? && Complete(request.value)
      && r.body.Fields? && r.body.fields.Keys == {"access_token", "token_type"}
      && r.body.fields["token_type"] == "Bearer"
      && exists u :: u in db.users && u.userName == request.value.userName
           && h.matches(u.password, request.value.password)
           && issue(u.id) == Some(r.body.fields["access_token"])
    ensures Valid(db) ==>
      (r.status == StatusOK <==>
        request.Some? && Complete(request.value) && db.available
        && exists u :: u in db.users && u.userName == request.value.userName
             && h.matches(u.password, request.value.password) && issue(u.id).Some?)
    ensures !db.available && request.Some? && Complete(request.value) ==> r.status == StatusInternalServerError
    ensures r.status in {StatusOK, StatusBadRequest, StatusUnauthorized, StatusInternalServerError}
  {
    match request
    case None => ErrorResponse(StatusBadRequest, "invalid request body")
    case Some(c) =>
      if c.userName == "" || c.password == "" then
        ErrorResponse(StatusBadRequest, "username and password required")
      else
        match GetUserByCredentialsAsWritten(db, h, c.userName, c.password)
        case Err(e) =>
          if e == ErrInvalidCredentials || e == ErrRecordNotFound then Unauthorized
          else ErrorResponse(StatusInternalServerError, "failed to find the user")
        case Ok(user) =>
          match issue(user.id)
          case None => ErrorResponse(StatusInternalServerError, "failed to get token")
          case Some(token) => Response(StatusOK, Fields(map["access_token" := token, "token_type" := "Bearer"]))
  }

  /**
    Login never tells an unknown user name from a wrong password: the two
    repository failures produce the same response.
  */
  lemma LoginHidesWhichCredentialFailed(
    db1: Database, c1: Credentials, db2: Database, c2: Credentials, h: Hasher, issue: TokenIssuer)
    requires Complete(c1) && Complete(c2)
    requires GetUserByCredentials(db1, h, c1.userName, c1.password) == Err(ErrRecordNotFound)
    requires GetUserByCredentials(db2, h, c2.userName, c2.password) == Err(ErrInvalidCredentials)
    ensures LoginUser(db1, h, issue, Some(c1)) == LoginUser(db2, h, issue, Some(c2)) == Unauthorized
  {
  }

  /** The query parameters of `GET /products`; an absent parameter is `""`. */
  datatype ListingParams = ListingParams(orderBy: string, sortIn: string, name: string, minPrice: string, maxPrice: string)

  /**
    The repository input the handler builds: each bound parsed with its default
    (0 for the minimum, MaxInt64 for the maximum), the minimum checked first.
    An unparsable bound is a 400 response, before the repository is asked.
  */
  function ListingInput(q: ListingParams): (r: Result<GetProductsInput, Response>)
    ensures r.Ok? <==>
      (q.minPrice == "" || IsInt64Literal(q.minPrice)) && (q.maxPrice == "" || IsInt64Literal(q.maxPrice))
    ensures r.Ok? ==>
      && r.value.orderBy == q.orderBy && r.value.sortIn == q.sortIn && r.value.name == q.name
      && r.value.minPrice == (if q.minPrice == "" then 0 else DecimalValue(q.minPrice))
      && r.value.maxPrice == (if q.maxPrice == "" then MaxInt64 else DecimalValue(q.maxPrice))
    ensures q.minPrice != "" && !IsInt64Literal(q.minPrice) ==>
      r == Err(ErrorResponse(StatusBadRequest, "invalid minPrice"))
    ensures (q.minPrice == "" || IsInt64Literal(q.minPrice)) && q.maxPrice != "" && !IsInt64Literal(q.maxPrice) ==>
      r == Err(ErrorResponse(StatusBadRequest, "invalid maxPrice"))
  {
    match ParseOptionalInt64(q.minPrice, 0)
    case Err(_) => Err(ErrorResponse(StatusBadRequest, "invalid minPrice"))
    case Ok(minPrice) =>
      match ParseOptionalInt64(q.maxPrice, MaxInt64)
      case Err(_) => Err(ErrorResponse(StatusBadRequest, "invalid maxPrice"))
      case Ok(maxPrice) => Ok(GetProductsInput(q.orderBy, q.sortIn, q.name, minPrice, maxPrice))
  }

  /** The response items: one per product, in the repository's order. */
  function ItemsOf(products: seq<Product>): (items: seq<ProductResponse>)
    ensures |items| == |products|
    ensures forall i :: 0 <= i < |products| ==>
      items[i] == ProductResponse(products[i].id, products[i].name, products[i].priceCents)
  {
    if |products| == 0 then []
    else [ProductResponse(products[0].id, products[0].name, products[0].priceCents)] + ItemsOf(products[1..])
  }

  /** `GetProducts`. */
  function GetProducts(db: Database, q: ListingParams): (r: Response)
    ensures r.status == StatusBadRequest <==> ListingInput(q).Err?
    ensures r.status == StatusInternalServerError <==> ListingInput(q).Ok? && !db.available
    ensures r.status == StatusOK <==> ListingInput(q).Ok? && db.available
    ensures r.status == StatusOK ==>
      r.body.Items? && exists out :: IsListing(db.products, ListingInput(q).value, out) && r.body.items == ItemsOf(out)
  {
    match ListingInput(q)
    case Err(response) => response
    case Ok(input) =>
      match Repository.GetProducts(db, input)
      case Err(_) => ErrorResponse(StatusInternalServerError, "failed to get products")
      case Ok(products) => Response(StatusOK, Items(ItemsOf(products)))
  }

  /** An unparsable price bound is answered without looking at the database. */
  lemma BadBoundNeverQueries(db1: Database, db2: Database, q: ListingParams)
    requires ListingInput(q).Err?
    ensures GetProducts(db1, q) == GetProducts(db2, q)
  {
  }

  /** A new user registers with 201 and then logs in with 200 and the Bearer token issued for its new id. */
  lemma RegisterThenLogIn(db: Database, h: Hasher, issue: TokenIssuer, c: Credentials)
    requires Valid(db) && Sound(h) && db.available && Complete(c)
    requires !HasUser(db, c.userName) && h.generate(c.password).Some?
    requires issue(|db.users| + 1).Some?
    ensures var reg := RegisterUser(db, h, Some(c));
      && reg.response.status == StatusCreated
      && LoginUser(reg.db, h, issue, Some(c)).status == StatusOK
      && LoginUser(reg.db, h, issue, Some(c)).body.fields["token_type"] == "Bearer"
      && LoginUser(reg.db, h, issue, Some(c)).body.fields["access_token"] == issue(|db.users| + 1).value
  {
    RegisteredUserCanLogIn(db, h, c.userName, c.password);
  }

  /** Registering a name that is taken answers 409 and leaves the users table as it was. */
  lemma RegisterTakenNameConflicts(db: Database, h: Hasher, c: Credentials)
    requires db.available && Complete(c) && HasUser(db, c.userName) && h.generate(c.password).Some?
    ensures RegisterUser(db, h, Some(c)) == Registration(ErrorResponse(StatusConflict, "user already exists"), db)
  {
  }

  /**
    On a freshly seeded database the admin logs in with its password and is
    refused with 401 for any other password.
  */
  lemma SeededAdminLogin(h: Hasher, issue: TokenIssuer, wrong: string)
    requires Sound(h) && Binding(h) && h.generate(AdminPassword).Some? && issue(1).Some?
    requires wrong != "" && wrong != AdminPassword
    ensures var db := Init(Database([], [], true), h).db;
      && LoginUser(db, h, issue, Some(Credentials(AdminName, AdminPassword))).status == StatusOK
      && LoginUser(db, h, issue, Some(Credentials(AdminName, wrong))) == Unauthorized
  {
    var db := Init(Database([], [], true), h).db;
    assert db.users == [User(1, AdminName, h.generate(AdminPassword).value)];
    assert CredentialsMatch(db, h, AdminName, AdminPassword);
    assert !CredentialsMatch(db, h, AdminName, wrong);
  }
}
