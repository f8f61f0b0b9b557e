/**
  The persistence side of `Repository`: the users table with its unique user
  name, the admin seeding of `Init`, registration through `CreateUser`, the
  credential check of `GetUserByCredentials`, and `GetProducts` over the
  products table.

  bcrypt is the abstract `Hasher`. The database is a value: the users table in
  primary-key order, the products table, and an `available` flag that stands for
  every persistence failure other than a duplicate key.
*/
module Repository {
  import opened Wrappers
  import opened ProductQuery

  /** A users row; `password` holds the bcrypt hash, never the plaintext. */
  datatype User = User(id: nat, userName: string, password: string)

  /**
    bcrypt as an abstract scheme. `generate` is `GenerateFromPassword`, which may
    fail; `matches` is `CompareHashAndPassword` reporting no error. The random salt
    is folded into `generate`.
  */
  datatype Hasher = Hasher(generate: string -> Option<string>, matches: (string, string) -> bool)

  /** A hash generated from a password accepts that password. */
  ghost predicate Sound(h: Hasher) {
    forall pw :: h.generate(pw).Some? ==> h.matches(h.generate(pw).value, pw)
  }

  /** A hash generated from a password accepts no other password. */
  ghost predicate Binding(h: Hasher) {
    forall pw, other :: h.generate(pw).Some? && h.matches(h.generate(pw).value, other) ==> other == pw
  }

  datatype Database = Database(users: seq<User>, products: seq<Product>, available: bool)

  /** The errors the repository hands to its callers. */
  datatype RepoError =
    | ErrUserAlreadyExists   // repository.ErrUserAlreadyExists
    | ErrInvalidCredentials  // repository.ErrInvalidCredentials
    | ErrRecordNotFound      // gorm.ErrRecordNotFound
    | ErrHash                // the error of bcrypt.GenerateFromPassword
    | ErrStorage             // any other persistence error

  /** A repository call that may change the database and may fail. */
  datatype Change = Change(db: Database, err: Option<RepoError>)

  /** The users table as the unique index on the user name keeps it: no name twice. */
  predicate Valid(db: Database) {
    forall i, j :: 0 <= i < j < |db.users| ==> db.users[i].userName != db.users[j].userName
  }

  predicate HasUser(db: Database, userName: string) {
    exists i :: 0 <= i < |db.users| && db.users[i].userName == userName
  }

  /** Some stored user has this name and a hash that accepts this password. */
  ghost predicate CredentialsMatch(db: Database, h: Hasher, userName: string, password: string) {
    exists i :: 0 <= i < |db.users| && db.users[i].userName == userName && h.matches(db.users[i].password, password)
  }

  /** `Where(User{UserName: n}).First(...)` for a non-empty `n`: the earliest row with that name. */
  function FindUser(users: seq<User>, userName: string): (r: Option<User>)
    ensures r.None? <==> forall i :: 0 <= i < |users| ==> users[i].userName != userName
    ensures r.Some? ==> r.value in users && r.value.userName == userName
  {
    if |users| == 0 then None
    else if users[0].userName == userName then Some(users[0])
    else
      var r := FindUser(users[1..], userName);
      assert forall i :: 1 <= i < |users| ==> users[i] == users[1..][i - 1];
      r
  }

  /** The table with one more row, keyed by one past the row count (a gap-free key sequence). */
  function AddUser(db: Database, userName: string, hash: string): Database {
    db.(users := db.users + [User(|db.users| + 1, userName, hash)])
  }

  const AdminName: string := "admin"
  const AdminPassword: string := "password"

  /**
    `Init`: hash the fixed admin password, then find-or-create the user named
    `admin`. An existing admin row is left as it is.
  */
  function Init(db: Database, h: Hasher): (r: Change)
    ensures r.err.None? <==> h.generate(AdminPassword).Some? && db.available
    ensures r.err.None? ==> HasUser(r.db, AdminName)
    ensures HasUser(db, AdminName) || r.err.Some? ==> r.db == db
    ensures !HasUser(db, AdminName) && r.err.None? ==>
      r.db == AddUser(db, AdminName, h.generate(AdminPassword).value)
    ensures Valid(db) ==> Valid(r.db)
  {
    match h.generate(AdminPassword)
    case None => Change(db, Some(ErrHash))
    case Some(hashed) =>
      if !db.available then Change(db, Some(ErrStorage))
      else if HasUser(db, AdminName) then Change(db, None)
      else
        var db' := AddUser(db, AdminName, hashed);
        assert db'.users[|db.users|].userName == AdminName;
        Change(db', None)
  }

  /**
    `CreateUser`: hash the password, then insert; the unique index on the user
    name turns a second registration of a name into `ErrUserAlreadyExists`.
  */
  function CreateUser(db: Database, h: Hasher, userName: string, password: string): (r: Change)
    ensures r.err.None? <==> h.generate(password).Some? && db.available && !HasUser(db, userName)
    ensures r.err == Some(ErrUserAlreadyExists) <==>
      h.generate(password).Some? && db.available && HasUser(db, userName)
    ensures r.err.None? ==> r.db == AddUser(db, userName, h.generate(password).value)
    ensures r.err.Some? ==> r.db == db
    ensures Valid(db) ==> Valid(r.db)
  {
    match h.generate(password)
    case None => Change(db, Some(ErrHash))
    case Some(hashed) =>
      if !db.available then Change(db, Some(ErrStorage))
      else if HasUser(db, userName) then Change(db, Some(ErrUserAlreadyExists))
      else Change(AddUser(db, userName, hashed), None)
  }

  /**
    `GetUserByCredentials` with the lookup it is meant to perform: the row whose
    user name is exactly `userName`, then the bcrypt comparison.
  */
  function GetUserByCredentials(db: Database, h: Hasher, userName: string, password: string): (r: Result<User, RepoError>)
    ensures !db.available ==> r == Err(ErrStorage)
    ensures db.available ==> (r == Err(ErrRecordNotFound) <==> !HasUser(db, userName))
    ensures Valid(db) ==>
      (r == Err(ErrInvalidCredentials) <==>
        db.available && HasUser(db, userName) && !CredentialsMatch(db, h, userName, password))
    ensures Valid(db) ==> (r.Ok? <==> db.available && CredentialsMatch(db, h, userName, password))
    ensures r.Ok? ==> r.value in db.users && r.value.userName == userName && h.matches(r.value.password, password)
  {
    if !db.available then Err(ErrStorage)
    else
      match FindUser(db.users, userName)
      case None => Err(ErrRecordNotFound)
      case Some(user) =>
        if !h.matches(user.password, password) then Err(ErrInvalidCredentials) else Ok(user)
  }

  /**
    The lookup as GORM performs it: a struct condition skips zero-valued fields,
    so an empty user name puts no condition on the query and `First` returns the
    row with the smallest primary key.
  */
  function FindUserAsWritten(users: seq<User>, userName: string): (r: Option<User>)
    ensures userName != "" ==> r == FindUser(users, userName)
    ensures userName == "" ==> (r.Some? <==> |users| > 0)
    ensures userName == "" && |users| > 0 ==> r == Some(users[0])
  {
    if userName == "" then (if |users| == 0 then None else Some(users[0]))
    else FindUser(users, userName)
  }

  /** `GetUserByCredentials` as written, over GORM's zero-value lookup. */
  function GetUserByCredentialsAsWritten(db: Database, h: Hasher, userName: string, password: string): (r: Result<User, RepoError>)
    ensures userName != "" ==> r == GetUserByCredentials(db, h, userName, password)
  {
    if !db.available then Err(ErrStorage)
    else
      match FindUserAsWritten(db.users, userName)
      case None => Err(ErrRecordNotFound)
      case Some(user) =>
        if !h.matches(user.password, password) then Err(ErrInvalidCredentials) else Ok(user)
  }

  /**
    With the lookup as written, an empty user name together with the admin
    password authenticates as the seeded admin, although no user has an empty
    name; the intended lookup reports the record as not found.
  */
  lemma EmptyUserNameAuthenticatesAsAdmin(h: Hasher)
    requires Sound(h) && h.generate(AdminPassword).Some?
    ensures var db := Init(Database([], [], true), h).db;
      && GetUserByCredentialsAsWritten(db, h, "", AdminPassword).Ok?
      && GetUserByCredentialsAsWritten(db, h, "", AdminPassword).value.userName == AdminName
      && GetUserByCredentials(db, h, "", AdminPassword) == Err(ErrRecordNotFound)
  {
    var db := Init(Database([], [], true), h).db;
    assert db.users == [User(1, AdminName, h.generate(AdminPassword).value)];
    assert !HasUser(db, "");
  }

  /** A registered user can log in with the password it registered. */
  lemma RegisteredUserCanLogIn(db: Database, h: Hasher, userName: string, password: string)
    requires Valid(db) && Sound(h)
    requires CreateUser(db, h, userName, password).err.None?
    ensures var db' := CreateUser(db, h, userName, password).db;
      GetUserByCredentials(db', h, userName, password)
        == Ok(User(|db.users| + 1, userName, h.generate(password).value))
  {
    var db' := CreateUser(db, h, userName, password).db;
    var u := User(|db.users| + 1, userName, h.generate(password).value);
    assert db'.users[|db.users|] == u;
    var found := FindUser(db'.users, userName);
    assert found.Some?;
    var k :| 0 <= k < |db'.users| && db'.users[k] == found.value;
    assert k == |db.users|;
  }

  /** A second registration of a name fails with `ErrUserAlreadyExists` and changes nothing. */
  lemma SecondRegistrationConflicts(db: Database, h: Hasher, userName: string, first: string, second: string)
    requires CreateUser(db, h, userName, first).err.None?
    requires h.generate(second).Some?
    ensures var db' := CreateUser(db, h, userName, first).db;
      && CreateUser(db', h, userName, second).err == Some(ErrUserAlreadyExists)
      && CreateUser(db', h, userName, second).db == db'
  {
    var db' := CreateUser(db, h, userName, first).db;
    assert db'.users[|db.users|].userName == userName;
  }

  /** Seeding twice changes nothing the first seeding did not. */
  lemma InitIdempotent(db: Database, h: Hasher)
    ensures Init(Init(db, h).db, h).db == Init(db, h).db
  {
  }

  /** After a successful `Init` there is exactly one user named `admin`. */
  lemma InitLeavesOneAdmin(db: Database, h: Hasher)
    requires Valid(db) && Init(db, h).err.None?
    ensures var users := Init(db, h).db.users;
      |set i | 0 <= i < |users| && users[i].userName == AdminName| == 1
  {
    var users := Init(db, h).db.users;
    var k :| 0 <= k < |users| && users[k].userName == AdminName;
    var admins := set i | 0 <= i < |users| && users[i].userName == AdminName;
    assert admins == {k};
  }

  /** `GetProducts`: the listing query, or the persistence error. */
  function GetProducts(db: Database, input: GetProductsInput): (r: Result<seq<Product>, RepoError>)
    ensures r.Err? <==> !db.available
    ensures r.Err? ==> r.error == ErrStorage
    ensures r.Ok? ==> IsListing(db.products, input, r.value)
  {
    if !db.available then Err(ErrStorage) else Ok(Query(db.products, input))
  }
}
