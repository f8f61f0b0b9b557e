# Listing and credential logic of go-backend-example, modelled in Dafny

The service registers users, logs them in with a bearer token and lists
products with a name filter, price bounds and a sort order. This project models
the three pieces of sequential logic behind that:

* **The product listing query** (`Repository.GetProducts`): the WHERE clause
  `LOWER(name) LIKE '%'||lower(keyword)||'%' AND price_cents BETWEEN min AND max`,
  the sort-direction normalisation (only `desc` is descending), and the
  allow-listed sort column (`name`, `price_cents`, anything else `created_at`).
  The result is specified as a permutation of exactly the kept rows, sorted by
  the chosen column in the chosen direction (`ProductQuery.IsListing`), and the
  concrete `ProductQuery.Query` (an insertion sort) is proved to meet it.
* **The price-bound parser** (`parseOptionalInt64` over Go's
  `strconv.ParseInt(s, 10, 64)`), modelled on the digit loop of
  `strconv.ParseUint` and proved equal to "an optional sign, one or more digits,
  value within int64"; it round-trips with a decimal renderer.
* **The credential store** (`Init`, `CreateUser`, `GetUserByCredentials`) over
  a users table with a unique user name, with bcrypt as an abstract `Hasher`
  (a fallible `generate` and a `matches` check).
* **The handlers** of package `handler` (the one the router uses) and the older
  duplicate package `handlers`, reduced to status codes and JSON bodies, with
  the token generator as a fallible oracle. Both packages are proved to answer
  every request identically.

Modules: `Wrappers` (Option/Result), `Strconv`, `Text` (ASCII lower-casing,
SQL `LIKE`, substring, BINARY collation), `ProductQuery`, `Repository`,
`Handler`, `LegacyHandlers`, `ListingExamples` (the route tests' scenarios).

Modelling choices:

* The database is a value: the users table in primary-key order, the products
  table, and a flag `available`; an unavailable database stands for every
  persistence error other than a duplicate key. Products carry their insertion
  position as `createdAt`.
* Lower-casing is ASCII-only on both sides (SQLite's `LOWER`); `LIKE` is
  SQLite's default, ASCII-case-insensitive operator with no escape character,
  so `%` and `_` typed into the keyword act as wildcards, as the code builds
  the pattern. `ProductQuery.KeepIsSubstringSearch` shows that for
  keywords without those two characters the filter is case-insensitive
  substring search.
* Name order is SQLite's BINARY collation: character-by-character, a proper
  prefix first.
* An absent `minPrice` defaults to 0 and an absent `maxPrice` to the int64
  maximum (internal/handler/handlers.go:123-139); the sort columns are `name`,
  `price_cents` and the fallback `created_at`; a duplicate user name is
  detected by membership in the users table, which the unique index on the
  name guarantees.
* The SQL semantics are SQLite's, the database the route tests run against;
  the service itself runs on PostgreSQL (see "Left out").

## Model

| member | source | states |
|---|---|---|
| Strconv.ScanDigits | internal/handler/handlers.go:165 | The base-10 digit loop succeeds exactly when all characters are digits with value at most 2^64-1, returns that value, and fails with a range error exactly when the leading digit run already exceeds 2^64-1 (otherwise a syntax error). |
| Strconv.ParseUint | internal/handler/handlers.go:165 | Unsigned parsing: the empty string is a syntax error; otherwise the digit-loop characterisation above. |
| Strconv.ParseInt | internal/handler/handlers.go:165 | Succeeds exactly on an optional `+`/`-` followed by one or more digits whose value lies in [-2^63, 2^63-1], with that value; a well-formed literal out of range is a range error; a sign alone or the empty string is a syntax error. |
| Strconv.ParseOptionalInt64 | internal/handler/handlers.go:161-166 | The empty string yields the default with no error; any other string is accepted exactly when it is an int64 literal, with its value. |
| Strconv.ParseFormatRoundTrip | internal/handler/handlers.go:165 | Every int64 rendered in base 10 parses back to itself. |
| Text.Lower | internal/repository/repository.go:85 | Lower-casing keeps the length, maps each character by ASCII lower-casing and leaves no upper-case ASCII letter. |
| Text.LowerKeepsWildcards | internal/repository/repository.go:85 | Lower-casing the keyword neither introduces nor removes `%` and `_`. |
| Text.LikeAnyRest | internal/repository/repository.go:85 | The pattern `%` matches every text. |
| Text.LikeLiteralPrefix | internal/repository/repository.go:85 | On lower-case text, a wildcard-free pattern followed by `%` matches exactly the texts that start with it. |
| Text.SubstringStep | internal/repository/repository.go:85 | An occurrence of a keyword is at the front of the text or inside its tail. |
| Text.LikeContains | internal/repository/repository.go:85 | On lower-case text, `LIKE '%k%'` holds exactly when `k` is a substring, for every wildcard-free `k`. |
| Text.LikeEmptyKeyword | internal/repository/repository.go:85 | The pattern built from an empty keyword matches every name. |
| Text.LexTotal | internal/repository/repository.go:96 | Any two names are comparable in the name order. |
| Text.LexTransitive | internal/repository/repository.go:96 | The name order is transitive. |
| Text.LexAntisymmetric | internal/repository/repository.go:96 | Two names each ordered before the other are equal. |
| ProductQuery.OrderFieldOf | internal/repository/repository.go:94-101 | The sort column is `name` exactly for the text `name`, `price_cents` exactly for `price_cents`, and `created_at` for every other text, the empty one included. |
| ProductQuery.DirectionOf | internal/repository/repository.go:89-92 | Descending exactly for the text `desc`; ascending for everything else, including `""` and `DESC`. |
| ProductQuery.FilterCounts | internal/repository/repository.go:84-87 | Every product occurs in the filtered rows as often as in the table when the WHERE clause keeps it, and not at all otherwise. |
| ProductQuery.FilterSubset | internal/repository/repository.go:84-87 | Every row the filter returns is a stored row that the WHERE clause keeps. |
| ProductQuery.FilterKeepsOrder | internal/repository/repository.go:84-87 | The WHERE clause never reorders rows: filtering a run sorted by any column in any direction leaves it sorted. |
| ProductQuery.InOrderTotal | internal/repository/repository.go:94-101 | Any two products are comparable under every column and direction. |
| ProductQuery.InOrderTransitive | internal/repository/repository.go:94-101 | The order for every column and direction is transitive. |
| ProductQuery.HeadBound | internal/repository/repository.go:94-101 | A row ordered before the head of a sorted run can be put in front of it. |
| ProductQuery.InsertStep | internal/repository/repository.go:94-101 | A head ordered before an inserted row stays in front of the sorted rest. |
| ProductQuery.Insert | internal/repository/repository.go:94-101 | Inserting into a sorted run adds exactly that row and keeps the run sorted. |
| ProductQuery.Sort | internal/repository/repository.go:94-101 | The ORDER BY result is a permutation of its input, sorted by the column in the direction. |
| ProductQuery.Query | internal/repository/repository.go:81-108 | The listing is exactly the kept rows with their multiplicities, sorted by the allow-listed column in the allow-listed direction; the table is only read. |
| ProductQuery.ListingMembers | internal/repository/repository.go:84-87 | A listing contains a product exactly when the table does and the filter keeps it. |
| ProductQuery.KeepIsSubstringSearch | internal/repository/repository.go:85-87 | For a keyword without `%` or `_`, a product is kept exactly when the lower-cased keyword is a substring of the lower-cased name and the price lies in [min, max]. |
| ProductQuery.EmptyKeywordKeepsAll | internal/repository/repository.go:85-87 | An empty keyword filters on the price bounds alone. |
| ProductQuery.InvertedBoundsGiveEmptyListing | internal/repository/repository.go:86-87 | A minimum above the maximum gives the empty listing rather than an error. |
| ProductQuery.OrderByOnlyThroughAllowList | internal/repository/repository.go:94-101 | Two inputs that differ only in `orderBy` text mapping to the same column give the same listing: the free text reaches nothing else. |
| ProductQuery.SortInOnlyThroughDesc | internal/repository/repository.go:89-92 | Two inputs that differ only in `sortIn` text with the same direction give the same listing. |
| ProductQuery.FilterDependsOnWhereOnly | internal/repository/repository.go:84-87 | The filtered rows depend only on keyword and bounds, not on the order parameters. |
| ProductQuery.SortedHeadsAgree | internal/repository/repository.go:94-101 | Two sorted permutations of rows keyed by the sort column start with the same row. |
| ProductQuery.DropCommonHead | internal/repository/repository.go:94-101 | Removing a common first row from two permutations leaves permutations. |
| ProductQuery.KeyOfTail | internal/repository/repository.go:94-101 | A column that is a key for some rows is a key for their tail. |
| ProductQuery.SortedPermutationUnique | internal/repository/repository.go:94-101 | Two sorted permutations of the same rows are equal when the sort column tells the rows apart. |
| ProductQuery.ListingDeterminedByKey | internal/repository/repository.go:81-108 | When the sort column tells the stored rows apart, every valid listing equals the model's; ties (equal prices) are the only freedom. |
| ProductQuery.NameIsKey | internal/domain/product.go:7 | Unique product names make ordering by name total on the table. |
| Repository.FindUser | internal/repository/repository.go:58 | The lookup finds nothing exactly when no row has the name, and otherwise a stored row with that name. |
| Repository.Init | internal/repository/repository.go:24-35 | Seeding succeeds exactly when hashing and the database succeed; afterwards an `admin` row exists; an existing admin row (or any failure) leaves the table untouched; otherwise exactly one row with the hashed fixed password is appended; the table invariant is kept. |
| Repository.CreateUser | internal/repository/repository.go:37-53 | Succeeds exactly when hashing succeeds, the database is up and the name is new, appending one row whose stored password is the hash of the plaintext; a taken name is `ErrUserAlreadyExists` exactly when hashing and the database succeed; every failure leaves the table unchanged. |
| Repository.GetUserByCredentials | internal/repository/repository.go:55-71 | Record-not-found exactly for an unknown name, `ErrInvalidCredentials` exactly for a known name whose hash rejects the password, success exactly when the stored hash accepts it, returning that row. |
| Repository.FindUserAsWritten | internal/repository/repository.go:58 | For a non-empty name the lookup is the exact-name lookup; for the empty name it returns the first row of the table. |
| Repository.GetUserByCredentialsAsWritten | internal/repository/repository.go:55-71 | For every non-empty user name the code's behaviour equals the intended lookup. |
| Repository.EmptyUserNameAuthenticatesAsAdmin | internal/repository/repository.go:58 | On a freshly seeded database, the empty user name with the admin password authenticates as `admin` in the code, while the intended lookup reports not found. |
| Repository.RegisteredUserCanLogIn | cmd/web/routes_test.go:109-117 | After a successful registration the same name and password authenticate and return the new row with that name. |
| Repository.SecondRegistrationConflicts | internal/repository/repository.go:43-48 | Registering a name a second time is `ErrUserAlreadyExists` and changes nothing. |
| Repository.InitIdempotent | internal/repository/repository.go:24-35 | Seeding a seeded database changes nothing. |
| Repository.InitLeavesOneAdmin | internal/repository/repository.go:33 | After successful seeding exactly one row is named `admin`. |
| Repository.GetProducts | internal/repository/repository.go:81-108 | The repository listing fails exactly when the database does, and otherwise returns a valid listing. |
| Handler.RegisterUser | internal/handler/handlers.go:29-68 | 400 exactly for an undecodable body or an empty field; 201 with `{"status":"user created"}` exactly when the user is created, adding that row; 409 exactly for a taken name; 500 exactly for a hashing or database failure; nothing is stored unless 201. |
| Handler.LoginUser | internal/handler/handlers.go:70-114 | 400 exactly for an undecodable body or an empty field; 401 exactly when no stored row with the name accepts the password, always with the same body; 200 with a Bearer token exactly when a stored user with the name accepts the password and a token can be issued for that user's id; 500 when the database fails. |
| Handler.LoginHidesWhichCredentialFailed | internal/handler/handlers.go:88-99 | An unknown user name and a wrong password produce the identical 401 response. |
| Handler.ListingInput | internal/handler/handlers.go:123-139 | The bounds default to 0 and MaxInt64, are accepted exactly when absent or int64 literals, and an invalid minimum is reported before an invalid maximum. |
| Handler.ItemsOf | internal/handler/handlers.go:147-154 | One response item per product, in the repository's order, copying id, name and price. |
| Handler.GetProducts | internal/handler/handlers.go:116-159 | 400 exactly for an invalid bound, 500 exactly for a database failure, otherwise 200 with the items of a valid listing. |
| Handler.BadBoundNeverQueries | internal/handler/handlers.go:123-137 | An invalid bound is answered the same whatever the database holds. |
| Handler.RegisterThenLogIn | cmd/web/routes_test.go:74-79 | A new user registers with 201 and then logs in with 200 and the Bearer token issued for its new id, one past the last stored id. |
| Handler.RegisterTakenNameConflicts | cmd/web/routes_test.go:93-96 | Registering a taken name answers 409 and stores nothing. |
| Handler.SeededAdminLogin | cmd/web/routes_test.go:131-147 | After seeding, `admin`/`password` logs in with 200 and any other password gets the 401 response. |
| LegacyHandlers.RegisterUser | internal/handlers/handlers.go:37-76 | 400 exactly for an undecodable body or an empty field, 409 exactly for a taken name, `{"status":"user created"}` on 201, nothing stored unless 201. |
| LegacyHandlers.LoginUser | internal/handlers/handlers.go:78-122 | 400 exactly for an undecodable body or an empty field, the one 401 response for both credential failures, and `access_token` with `token_type` `Bearer` on 200. |
| LegacyHandlers.RegisterMatchesHandler | internal/handlers/handlers.go:37-76 | The older registration answers every request exactly as the routed one. |
| LegacyHandlers.LoginMatchesHandler | internal/handlers/handlers.go:78-122 | The older login answers every request exactly as the routed one. |
| ListingExamples.FruitsKeyedByEveryColumn | cmd/web/products_routes_test.go:28-32 | In the seeded table every column tells the products apart. |
| ListingExamples.UnfilteredListing | cmd/web/products_routes_test.go:38-46 | With no filter, any sorted arrangement of the three seeded products is the listing. |
| ListingExamples.SortByName | cmd/web/products_routes_test.go:38-40 | `name` with `asc` or with no direction lists apple, banana, cherry. |
| ListingExamples.SortByNameDesc | cmd/web/products_routes_test.go:39 | `name`/`desc` lists cherry, banana, apple. |
| ListingExamples.SortByPrice | cmd/web/products_routes_test.go:41-43 | `price_cents` with `asc` or with no direction lists apple, cherry, banana. |
| ListingExamples.SortByPriceDesc | cmd/web/products_routes_test.go:42 | `price_cents`/`desc` lists banana, cherry, apple. |
| ListingExamples.SortByCreation | internal/repository/repository.go:99-100 | `created_at` with `asc` or with no direction, and an `orderBy` outside the allow-list (an injection attempt), list apple, banana, cherry, as the route test expects at lines 44 and 46. |
| ListingExamples.SortByCreationDesc | cmd/web/products_routes_test.go:45 | `created_at`/`desc` lists cherry, banana, apple. |
| ListingExamples.FilteredInCreationOrder | internal/repository/repository.go:84-101 | With no order parameters the listing of the seeded table is exactly its filtered rows in stored order. |
| ListingExamples.KeywordAp | cmd/web/products_routes_test.go:101-102 | The keyword `ap`, and `Ap` in another case, finds apple alone. |
| ListingExamples.KeywordA | cmd/web/products_routes_test.go:103 | The keyword `a` finds apple and banana. |
| ListingExamples.KeywordAa | cmd/web/products_routes_test.go:104 | The keyword `aa` finds nothing. |
| ListingExamples.KeywordEmpty | cmd/web/products_routes_test.go:105 | The empty keyword finds all three products. |
| ListingExamples.PriceRangeExamples | internal/repository/repository.go:86-87 | Bounds 150..250 keep only cherry; bounds 200..100 keep nothing. |

## Findings

| source | as written | input that shows it | evidently intended | confidence | as-written member | corrected member |
|---|---|---|---|---|---|---|
| internal/repository/repository.go:58 | The user is looked up with a struct condition; GORM drops zero-valued fields from struct conditions, so an empty user name adds no WHERE clause and `First` returns the row with the smallest key. | `GetUserByCredentials("", "password")` on the seeded database returns the `admin` user. | Look up the row whose user name equals the argument; the empty name matches nobody. | medium: relies on GORM's documented zero-value rule; not executed. The handlers call this lookup as written, but only after rejecting empty names, so their contracts, stated over the intended lookup, hold for every request (Handler.LoginUser). | Repository.GetUserByCredentialsAsWritten (shown by Repository.EmptyUserNameAuthenticatesAsAdmin) | Repository.GetUserByCredentials |

## Left out

- HTTP plumbing: routing, `Ping`, JSON decoding (reduced to "decodes or not") and encoding, `writeJSON`, server start-up, environment and DSN loading, `Migrate`, the constructors.
- JWT: `GenerateJWTToken` is an oracle from user id to a token or a failure; signing, the secret, the one-hour expiry and `ParseJWTToken` (not called anywhere) are not modelled.
- bcrypt internals: cost, salting and constant-time comparison. The random salt is folded into the abstract `generate`, so `Repository.InitIdempotent` assumes the same hashing outcome on both calls.
- Concurrency: atomic uniqueness under simultaneous registrations is the database's unique index; the model checks membership in the table.
- GORM soft deletes and timestamp columns; `createdAt` is the insertion position.
- Unicode lower-casing: Go's `strings.ToLower` is Unicode-aware, the model lower-cases ASCII only on both sides.
- The order among products with equal prices is left open by `ProductQuery.IsListing`; `ProductQuery.Query` picks one such order.
- PostgreSQL, the production database (cmd/web/main.go:60): the model takes SQLite's semantics, as in the route tests. On PostgreSQL `LIKE` treats `\` in the keyword as an escape character, `LOWER` follows the database locale, and `ORDER BY name` follows the database collation rather than character order.
- Repository.AddUser assigns the id `|users| + 1`, which holds for SQLite's gap-free keys; a PostgreSQL sequence also consumes a value on a failed insert (a 409 registration, say), so real ids can have gaps. `Repository.Valid` therefore states only the unique user names, and the exact new id in `Repository.RegisteredUserCanLogIn` and `Handler.RegisterThenLogIn` holds for the gap-free case only.
- Integer widths of ids (`uint`) are unbounded naturals; prices are int64 by type.
- The `Func` and `Num` fields of `strconv.NumError`; only its cause is kept.
- Strconv.ParseInt: the syntax-versus-range cause of a failure is stated only for well-formed literals and for an empty magnitude; the full rule is stated on `Strconv.ParseUint`.
- LegacyHandlers.RegisterUser: its own contract omits the 201 and 500 conditions; `LegacyHandlers.RegisterMatchesHandler` carries them over from `Handler.RegisterUser`.
- LegacyHandlers.LoginUser: its own contract omits the 401 and 500 conditions; `LegacyHandlers.LoginMatchesHandler` carries them over from `Handler.LoginUser`.
