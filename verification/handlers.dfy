/**
 * The three HTTP routes of the service. Each route holds the store's lock for
 * the whole request, so a handler runs against one consistent table; only
 * `register` writes to it.
 */
module Handlers {

  import opened Wrappers
  import opened Text
  import opened Tokens
  import opened Database

  const StatusOk := 200
  const StatusBadRequest := 400
  const StatusUnauthorized := 401
  const StatusNotFound := 404
  const StatusConflict := 409
  const StatusInternalError := 500

  const UserAlreadyExists := "User already exists"
  const UserNotExists := "User not exists"
  const InvalidToken := "Invalid/Expired Token"
  const UserNotFound := "User not found"

  /** The scheme in front of the token in the `Authorization` header. */
  const BearerPrefix := "Bearer "

  /** A JSON body: none, `{"message": …}`, or the user record. */
  datatype Body = Empty | Message(message: string) | UserJson(user: User)

  /** Status code, the `Authorization` response header if one is set, and the body. */
  datatype Response = Response(status: int, authorization: Option<string>, body: Body)

  /** A handler either answers or panics (the request is dropped). */
  datatype Handled = Replied(response: Response) | Aborted(cause: Panic)

  /** The request's `Authorization` header: absent, present but not visible ASCII, or readable text. */
  datatype AuthHeader = Missing | Unreadable | Visible(value: string)

  /** The 200 answer of `register` and `login`: an empty body and `Authorization: Bearer <token>`. */
  function Issued(token: string): Response {
    Response(StatusOk, Some(BearerPrefix + token), Empty)
  }

  /** Some stored row already has this email or this username. */
  predicate Registered(t: Table, username: string, email: string) {
    exists j :: 0 <= j < |t| && (t[j].email == email || t[j].username == username)
  }

  /**
   * `register`: refuse with 409 when the email or the username is already
   * stored; otherwise create the user and answer with a token for its id.
   */
  method Register(db: UserDB, username: string, email: string, password: string,
                  freshId: string, bc: Bcrypt, tokens: TokenAuthority)
    returns (r: Handled)
    requires db.Valid()
    modifies db
    ensures db.Valid()
    ensures Registered(old(db.rows), username, email) ==>
      r == Replied(Response(StatusConflict, None, Message(UserAlreadyExists)))
    ensures !Registered(old(db.rows), username, email) ==>
      match bc.hash(password)
      case None => r == Aborted(HashFailed)
      case Some(credential) =>
        if exists j :: 0 <= j < |old(db.rows)| && old(db.rows)[j].id == freshId
        then r == Aborted(UniqueViolated)
        else r == Replied(Issued(tokens.create(freshId)))
             && db.rows == old(db.rows) + [NewRow(freshId, username, email, credential)]
    ensures r != Replied(Issued(tokens.create(freshId))) ==> db.rows == old(db.rows)
  {
    var emailExists := GetUserByEmail(db.rows, email).Some?;
    var usernameExists := GetUserByUsername(db.rows, username).Some?;
    if emailExists || usernameExists {
      return Replied(Response(StatusConflict, None, Message(UserAlreadyExists)));
    }
    assert (exists j :: 0 <= j < |db.rows| && db.rows[j].id == freshId) ==> Taken(db.rows, freshId, username, email);
    var created := db.CreateUser(username, email, password, freshId, bc);
    match created
    case Panicked(cause) =>
      assert bc.hash(password).Some? ==> cause == UniqueViolated;
      assert bc.hash(password).Some? ==> Taken(old(db.rows), freshId, username, email);
      r := Aborted(cause);
    case Created(user) =>
      r := Replied(Issued(tokens.create(user.id)));
  }

  /**
   * `login`: 409 when no user has the login string as email or username;
   * otherwise 200 with a token when the password matches, 401 when not.
   */
  function Login(t: Table, login: string, password: string, bc: Bcrypt, tokens: TokenAuthority): (r: Response)
    ensures r.status == StatusOk || r.status == StatusUnauthorized || r.status == StatusConflict
    ensures r.status == StatusConflict <==> forall j :: 0 <= j < |t| ==> t[j].email != login && t[j].username != login
    ensures r.status == StatusConflict ==> r == Response(StatusConflict, None, Message(UserNotExists))
    ensures r.status == StatusUnauthorized ==> r == Response(StatusUnauthorized, None, Empty)
    ensures r.status == StatusOk ==>
      exists i :: FirstSelected(t, ByLogin(login), i) && r == Issued(tokens.create(t[i].id))
    ensures Unique(t) ==>
      (r.status == StatusOk <==> exists i :: FirstSelected(t, ByLogin(login), i) && Matches(bc, password, t[i].password))
  {
    if GetUserByLogin(t, login).None? then
      Response(StatusConflict, None, Message(UserNotExists))
    else
      match VerifyLogin(t, login, password, bc)
      case Some(user) => Issued(tokens.create(user.id))
      case None => Response(StatusUnauthorized, None, Empty)
  }

  /** The token in an `Authorization` value: drop a leading "Bearer " if present, then trim. */
  function ExtractToken(value: string): (token: string)
    ensures Trimmed(token)
  {
    match StripPrefix(value, BearerPrefix)
    case Some(rest) => Trim(rest)
    case None => Trim(value)
  }

  /** The header `register` and `login` send back yields the token they issued. */
  lemma BearerRoundTrip(token: string)
    requires Trimmed(token)
    ensures ExtractToken(BearerPrefix + token) == token
  {
  }

  /** Whitespace around the token after the prefix is ignored. */
  lemma BearerPadding(a: string, token: string, b: string)
    requires AllWhitespace(a) && AllWhitespace(b) && Trimmed(token)
    ensures ExtractToken(BearerPrefix + a + token + b) == token
  {
    var v := BearerPrefix + a + token + b;
    assert v[..|BearerPrefix|] == BearerPrefix;
    assert v[|BearerPrefix|..] == a + token + b;
    TrimCharacterised(a, token, b);
  }

  /** A bare, already trimmed value without the prefix is taken as the token itself. */
  lemma BareToken(value: string)
    requires Trimmed(value) && !StartsWith(value, BearerPrefix)
    ensures ExtractToken(value) == value
  {
  }

  /** Without the prefix, the whole value is the token once whitespace around it is dropped. */
  lemma BarePadding(a: string, m: string, b: string)
    requires AllWhitespace(a) && AllWhitespace(b) && Trimmed(m)
    requires !StartsWith(a + m + b, BearerPrefix)
    ensures ExtractToken(a + m + b) == m
  {
    TrimCharacterised(a, m, b);
  }

  /** Extracting twice changes nothing more, unless the extracted token itself starts with the prefix. */
  lemma ExtractTokenIdempotent(value: string)
    requires !StartsWith(ExtractToken(value), BearerPrefix)
    ensures ExtractToken(ExtractToken(value)) == ExtractToken(value)
  {
  }

  /**
   * `verify`: 400 without the header, 500 when it is not text, 401 when the
   * token is not accepted, 404 when its user is gone, else 200 with the user.
   */
  function Verify(t: Table, header: AuthHeader, tokens: TokenAuthority): (r: Response)
    ensures r.authorization == None
    ensures r.status in {StatusOk, StatusBadRequest, StatusUnauthorized, StatusNotFound, StatusInternalError}
    ensures r.status == StatusBadRequest <==> header.Missing?
    ensures r.status == StatusInternalError <==> header.Unreadable?
    ensures r.status in {StatusBadRequest, StatusInternalError} ==> r.body == Empty
    ensures header.Visible? ==>
      var subject := tokens.verify(ExtractToken(header.value));
      && (r.status == StatusUnauthorized <==> subject.None?)
      && (r.status == StatusUnauthorized ==> r.body == Message(InvalidToken))
      && (r.status == StatusNotFound <==> subject.Some? && forall j :: 0 <= j < |t| ==> t[j].id != subject.value)
      && (r.status == StatusNotFound ==> r.body == Message(UserNotFound))
      && (r.status == StatusOk ==>
            subject.Some? && exists i :: FirstSelected(t, ById(subject.value), i) && r.body == UserJson(ToUser(t[i])))
  {
    match header
    case Missing => Response(StatusBadRequest, None, Empty)
    case Unreadable => Response(StatusInternalError, None, Empty)
    case Visible(value) =>
      match tokens.verify(ExtractToken(value))
      case None => Response(StatusUnauthorized, None, Message(InvalidToken))
      case Some(id) =>
        match GetUserById(t, id)
        case Some(user) => Response(StatusOk, None, UserJson(user))
        case None => Response(StatusNotFound, None, Message(UserNotFound))
  }

  /** A token issued for a stored user, sent back as a Bearer header, returns that user's record. */
  lemma IssuedTokenVerifies(t: Table, i: int, tokens: TokenAuthority)
    requires Unique(t) && 0 <= i < |t|
    requires RoundTrips(tokens, t[i].id) && Trimmed(tokens.create(t[i].id))
    ensures Verify(t, Visible(BearerPrefix + tokens.create(t[i].id)), tokens)
         == Response(StatusOk, None, UserJson(ToUser(t[i])))
  {
    BearerRoundTrip(tokens.create(t[i].id));
    LookupStoredKey(t, i);
  }

  /**
   * After a successful registration, the header it answered with passes
   * `verify` and shows the new user: the given username and email, role
   * "user", not verified.
   */
  lemma RegisterThenVerify(t: Table, username: string, email: string, credential: string,
                           freshId: string, tokens: TokenAuthority)
    requires Unique(t + [NewRow(freshId, username, email, credential)])
    requires RoundTrips(tokens, freshId) && Trimmed(tokens.create(freshId))
    ensures Verify(t + [NewRow(freshId, username, email, credential)],
                   Visible(Issued(tokens.create(freshId)).authorization.value), tokens)
         == Response(StatusOk, None, UserJson(User(freshId, username, email, DefaultRole, false)))
  {
    IssuedTokenVerifies(t + [NewRow(freshId, username, email, credential)], |t|, tokens);
  }

  /**
   * After a successful registration, logging in with the new email or
   * username and the same password issues a token for the new id, provided
   * no older user has that string in the other column.
   */
  lemma RegisterThenLogin(t: Table, username: string, email: string, password: string,
                          freshId: string, login: string, bc: Bcrypt, tokens: TokenAuthority)
    requires bc.hash(password).Some?
    requires Unique(t + [NewRow(freshId, username, email, bc.hash(password).value)])
    requires Matches(bc, password, bc.hash(password).value)
    requires login == username || login == email
    requires forall j :: 0 <= j < |t| ==> t[j].email != login && t[j].username != login
    ensures Login(t + [NewRow(freshId, username, email, bc.hash(password).value)], login, password, bc, tokens)
         == Issued(tokens.create(freshId))
  {
    var t' := t + [NewRow(freshId, username, email, bc.hash(password).value)];
    assert FirstSelected(t', ByLogin(login), |t|);
  }

  /**
   * UNIQUE holds per column only, so one user's username may be another's
   * email. When the row holding the string as email comes first, login under
   * that string is checked against that row's credential, and any password
   * it does not match is refused, the other user's own password included.
   */
  lemma LoginShadowedAcrossColumns(t: Table, i: int, k: int, s: string, p: string,
                                   bc: Bcrypt, tokens: TokenAuthority)
    requires Unique(t) && 0 <= i < k < |t|
    requires t[i].email == s && t[k].username == s
    requires FirstSelected(t, ByLogin(s), i)
    requires !Matches(bc, p, t[i].password)
    ensures Login(t, s, p, bc, tokens) == Response(StatusUnauthorized, None, Empty)
  {
  }

  /** An instance: "bob" logs in with the password of the row named "bob" and is refused. */
  lemma LoginShadowedInstance(tokens: TokenAuthority)
    ensures
      var t := [Row("1", "alice", "bob", DefaultRole, "pw-alice", 0),
                Row("2", "bob", "bob@example.com", DefaultRole, "pw-bob", 0)];
      var bc := Bcrypt(p => Some(p), (p, h) => Some(p == h));
      && Unique(t)
      && Matches(bc, "pw-bob", t[1].password)
      && Login(t, "bob", "pw-bob", bc, tokens) == Response(StatusUnauthorized, None, Empty)
  {
  }
}
