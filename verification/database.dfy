/**
 * The user store: the `users` table of the SQLite database, its UNIQUE
 * constraints, the INSERT that registration performs, and the SELECT
 * lookups that return the first matching row.
 */
module Database {

  import opened Wrappers

  /** One row of the `users` table; `password` holds the bcrypt credential, `verified` the stored INTEGER. */
  datatype Row = Row(id: string, username: string, email: string, role: string, password: string, verified: int)

  /** What a lookup hands back: every column except the credential. */
  datatype User = User(id: string, username: string, email: string, role: string, verified: bool)

  /** The table's rows in table order. */
  type Table = seq<Row>

  /** Column defaults from the schema. */
  const DefaultRole: string := "user"
  const DefaultVerified: int := 0

  /**
   * The bcrypt library: `hash` returns None where the library reports an
   * error, `verify` returns None where it cannot read the credential.
   */
  datatype Bcrypt = Bcrypt(hash: string -> Option<string>, verify: (string, string) -> Option<bool>)

  /** `verify(password, credential).unwrap_or(false)`. */
  predicate Matches(bc: Bcrypt, password: string, credential: string) {
    bc.verify(password, credential).GetOr(false)
  }

  /** Why a call into the store panicked instead of returning. */
  datatype Panic = HashFailed | UniqueViolated

  /** The schema's UNIQUE constraints on `id`, `username` and `email`. */
  predicate Unique(t: Table) {
    forall i, j :: 0 <= i < j < |t| ==>
      t[i].id != t[j].id && t[i].username != t[j].username && t[i].email != t[j].email
  }

  /** Some stored row already holds this id, this username or this email. */
  predicate Taken(t: Table, id: string, username: string, email: string) {
    exists i :: 0 <= i < |t| && (t[i].id == id || t[i].username == username || t[i].email == email)
  }

  /** The row `create_user` inserts: the columns it names, the schema's defaults for the others. */
  function NewRow(id: string, username: string, email: string, credential: string): Row {
    Row(id, username, email, DefaultRole, credential, DefaultVerified)
  }

  /** The INSERT statement: SQLite refuses a row that breaks a UNIQUE constraint. */
  function Insert(t: Table, row: Row): (r: Option<Table>)
    ensures Unique(t) && r.Some? ==> Unique(r.value)
  {
    if Taken(t, row.id, row.username, row.email) then None else Some(t + [row])
  }

  /** The WHERE clauses of the lookups. */
  datatype Query = ById(id: string) | ByUsername(username: string) | ByEmail(email: string) | ByLogin(login: string)

  predicate Selects(q: Query, row: Row) {
    match q
    case ById(id) => row.id == id
    case ByUsername(name) => row.username == name
    case ByEmail(email) => row.email == email
    case ByLogin(login) => row.email == login || row.username == login
  }

  /** Row `i` is the first row, in table order, that the query selects. */
  predicate FirstSelected(t: Table, q: Query, i: int) {
    0 <= i < |t| && Selects(q, t[i]) && forall j :: 0 <= j < i ==> !Selects(q, t[j])
  }

  /** Where the row cursor stops first: the index of the first row the query selects. */
  function FirstMatch(t: Table, q: Query): (r: Option<nat>)
    ensures r.Some? ==> FirstSelected(t, q, r.value)
    ensures r.None? <==> forall j :: 0 <= j < |t| ==> !Selects(q, t[j])
  {
    if t == [] then None
    else if Selects(q, t[0]) then Some(0)
    else
      match FirstMatch(t[1..], q)
      case None => None
      case Some(k) => Some(k + 1)
  }

  /** The row-to-struct mapping of `query_single`: the credential is dropped, INTEGER `verified` becomes a flag. */
  function ToUser(row: Row): User {
    User(row.id, row.username, row.email, row.role, row.verified != 0)
  }

  /** `query_single`: the first selected row as a User, or None when the query selects nothing. */
  function QuerySingle(t: Table, q: Query): (r: Option<User>)
    ensures r.None? <==> forall j :: 0 <= j < |t| ==> !Selects(q, t[j])
    ensures r.Some? ==> exists i :: FirstSelected(t, q, i) && r.value == ToUser(t[i])
  {
    match FirstMatch(t, q)
    case None => None
    case Some(i) => Some(ToUser(t[i]))
  }

  function GetUserById(t: Table, id: string): (r: Option<User>)
    ensures r.Some? ==> r.value.id == id
    ensures r.None? <==> forall j :: 0 <= j < |t| ==> t[j].id != id
  {
    QuerySingle(t, ById(id))
  }

  function GetUserByUsername(t: Table, username: string): (r: Option<User>)
    ensures r.Some? ==> r.value.username == username
    ensures r.None? <==> forall j :: 0 <= j < |t| ==> t[j].username != username
  {
    QuerySingle(t, ByUsername(username))
  }

  function GetUserByEmail(t: Table, email: string): (r: Option<User>)
    ensures r.Some? ==> r.value.email == email
    ensures r.None? <==> forall j :: 0 <= j < |t| ==> t[j].email != email
  {
    QuerySingle(t, ByEmail(email))
  }

  /** `WHERE email = ?1 OR username = ?1`: the login string may name either column. */
  function GetUserByLogin(t: Table, login: string): (r: Option<User>)
    ensures r.Some? ==> r.value.email == login || r.value.username == login
    ensures r.None? <==> forall j :: 0 <= j < |t| ==> t[j].email != login && t[j].username != login
  {
    QuerySingle(t, ByLogin(login))
  }

  /** `get_password_by_id`: the credential of the first row with that id. */
  function GetPasswordById(t: Table, id: string): (r: Option<string>)
    ensures r.None? <==> forall j :: 0 <= j < |t| ==> t[j].id != id
    ensures r.Some? ==> exists i :: 0 <= i < |t| && t[i].id == id && r.value == t[i].password
  {
    match FirstMatch(t, ById(id))
    case None => None
    case Some(i) => Some(t[i].password)
  }

  /**
   * `verify_login`: the user the login string finds, provided the password
   * matches that user's stored credential; None on every failure.
   */
  function VerifyLogin(t: Table, login: string, password: string, bc: Bcrypt): (r: Option<User>)
    ensures r.Some? ==> r == GetUserByLogin(t, login)
    ensures Unique(t) ==>
      (r.Some? <==> exists i :: FirstSelected(t, ByLogin(login), i) && Matches(bc, password, t[i].password))
  {
    match GetUserByLogin(t, login)
    case None => None
    case Some(user) =>
      match GetPasswordById(t, user.id)
      case None => None
      case Some(credential) => if Matches(bc, password, credential) then Some(user) else None
  }

  /** In a table that keeps its UNIQUE constraints, a lookup by a stored key finds exactly that row. */
  lemma LookupStoredKey(t: Table, i: int)
    requires Unique(t) && 0 <= i < |t|
    ensures GetUserById(t, t[i].id) == Some(ToUser(t[i]))
    ensures GetUserByUsername(t, t[i].username) == Some(ToUser(t[i]))
    ensures GetUserByEmail(t, t[i].email) == Some(ToUser(t[i]))
    ensures GetPasswordById(t, t[i].id) == Some(t[i].password)
  {
  }

  /** Two tables that differ at most in their stored credentials. */
  predicate SameButCredentials(t: Table, t': Table) {
    |t| == |t'| && forall i :: 0 <= i < |t| ==> t[i].(password := "") == t'[i].(password := "")
  }

  /** What a lookup returns never depends on the stored credentials. */
  lemma QueryIgnoresCredentials(t: Table, t': Table, q: Query)
    requires SameButCredentials(t, t')
    ensures QuerySingle(t, q) == QuerySingle(t', q)
  {
  }

  /** The store: one connection to the database holding the `users` table. */
  class UserDB {
    var rows: Table

    ghost predicate Valid()
      reads this
    {
      Unique(rows)
    }

    /** `UserDB::new`: the table exists (perhaps already holding rows) once the store is open. */
    constructor Open(existing: Table)
      requires Unique(existing)
      ensures Valid() && rows == existing
    {
      rows := existing;
    }

    /**
     * `create_user`: hash the password, INSERT one row with the default role
     * and an unverified flag, and report the new user. A hashing error or a
     * UNIQUE violation panics and leaves the table as it was.
     */
    method CreateUser(username: string, email: string, password: string, freshId: string, bc: Bcrypt)
      returns (r: Result)
      requires Valid()
      modifies this
      ensures Valid()
      ensures r.Created? <==>
        bc.hash(password).Some? && !Taken(old(rows), freshId, username, email)
      ensures r.Created? ==>
        && r.user == User(freshId, username, email, DefaultRole, false)
        && rows == old(rows) + [NewRow(freshId, username, email, bc.hash(password).value)]
      ensures r.Panicked? ==> rows == old(rows)
      ensures r == Panicked(HashFailed) <==> bc.hash(password).None?
    {
      match bc.hash(password)
      case None =>
        r := Panicked(HashFailed);
      case Some(credential) =>
        var row := NewRow(freshId, username, email, credential);
        match Insert(rows, row)
        case None =>
          r := Panicked(UniqueViolated);
        case Some(t) =>
          rows := t;
          r := Created(User(freshId, username, email, DefaultRole, false));
    }
  }

  /** A call that either returned a new user or panicked. */
  datatype Result = Created(user: User) | Panicked(cause: Panic)
}
