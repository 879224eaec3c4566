/** The account routes: registration, login and access-token refresh. */
module AuthRoutes {
  import opened Base
  import opened Text
  import opened Store
  import opened Oracles
  import opened UserModel
  import opened AuthMiddleware

  const FieldsRequired: string := "All fields are required"
  const EmailInUse: string := "Email already in use. Please login."
  const RegisterError: string := "Internal Server Error"
  const Registered: string := "User registered successfully"
  const BadCredentials: string := "Invalid email or password"
  const LoginOk: string := "Login successful"
  const RefreshRequired: string := "Refresh token is required"
  const BadRefresh: string := "Invalid refresh token"

  /** The body of a successful login. */
  datatype Session = Session(accessToken: string, refreshToken: string, user: Profile, message: string)

  /** `POST /register`. `newId` is the identifier the store assigns and `salt`
      the one `genSalt` draws: both come from outside the handler. Missing
      fields are a 400, a taken email a 400, a schema violation a 500; otherwise
      the new user is stored with the role default, trimmed name and hashed
      password. */
  function RegisterUser(users: seq<User>, name: Option<string>, email: Option<string>, password: Option<string>,
                        newId: Id, salt: string, crypto: Crypto): (t: Transition<(), seq<User>>)
    requires ValidObjectId(newId) && forall j | 0 <= j < |users| :: users[j].id != newId
    ensures t.response.status != 201 ==> t.state == users
    ensures !(Truthy(name) && Truthy(email) && Truthy(password)) <==> t.response == Msg(400, FieldsRequired)
    ensures Truthy(name) && Truthy(email) && Truthy(password) && IsEmailTaken(users, email.value)
            <==> t.response == Msg(400, EmailInUse)
    ensures t.response.status == 201 <==>
            && Truthy(name) && Truthy(email) && Truthy(password)
            && !IsEmailTaken(users, email.value)
            && Trim(name.value) != "" && ValidEmail(email.value)
    ensures t.response.status == 201 ==>
            && t.response == Msg(201, Registered)
            && |t.state| == |users| + 1 && t.state[..|users|] == users
            && var u := t.state[|users|];
               && u.id == newId && u.name == Trim(name.value) && u.email == email.value
               && u.role == DefaultRole && u.password == crypto.hash(password.value, salt)
    ensures Truthy(name) && Truthy(email) && Truthy(password) && !IsEmailTaken(users, email.value)
            && (Trim(name.value) == "" || !ValidEmail(email.value))
            ==> t == Transition(Msg(500, RegisterError), users)
    ensures t.response.status in {201, 400, 500}
  {
    if !Truthy(name) || !Truthy(email) || !Truthy(password) then Transition(Msg(400, FieldsRequired), users)
    else if IsEmailTaken(users, email.value) then Transition(Msg(400, EmailInUse), users)
    else
      var u := NewUser(newId, name.value, email.value, password.value);
      // schema validation runs before the hashing hook
      if !PassesValidation(u) then Transition(Msg(500, RegisterError), users)
      else Transition(Msg(201, Registered), users + [PreSave(u, true, salt, crypto)])
  }

  /** `POST /login`: the first user with exactly this email, then the password
      comparison; both failures give the same 400, so the response does not
      reveal which one failed. */
  function Login(users: seq<User>, email: string, password: string, crypto: Crypto, jwt: Jwt): (r: Response<Session>)
    ensures r.status == 200 <==>
            FindByEmail(users, email).Some? && crypto.compare(password, users[FindByEmail(users, email).value].password)
    ensures r.status != 200 ==> r == Msg(400, BadCredentials)
    ensures r.status == 200 ==>
            var u := users[FindByEmail(users, email).value];
            && u.email == email
            && r == Response(200, Json(Session(jwt.sign(u.id, AccessSecret), jwt.sign(u.id, RefreshSecret), Public(u), LoginOk)))
  {
    match FindByEmail(users, email)
    case None => Msg(400, BadCredentials)
    case Some(i) =>
      if !crypto.compare(password, users[i].password) then Msg(400, BadCredentials)
      else
        var u := users[i];
        Response(200, Json(Session(jwt.sign(u.id, AccessSecret), jwt.sign(u.id, RefreshSecret), Public(u), LoginOk)))
  }

  /** `POST /refresh`: a refresh token that verifies under the refresh secret
      buys a new access token for the same subject. */
  function Refresh(refreshToken: Option<string>, jwt: Jwt): (r: Response<string>)
    ensures !Truthy(refreshToken) <==> r == Msg(400, RefreshRequired)
    ensures Truthy(refreshToken) && !jwt.verify(refreshToken.value, RefreshSecret).Verified?
            <==> r == Msg(403, BadRefresh)
    ensures r.status == 200 <==> Truthy(refreshToken) && jwt.verify(refreshToken.value, RefreshSecret).Verified?
    ensures r.status == 200 ==>
            r == Response(200, Json(jwt.sign(jwt.verify(refreshToken.value, RefreshSecret).subject, AccessSecret)))
  {
    if !Truthy(refreshToken) then Msg(400, RefreshRequired)
    else match jwt.verify(refreshToken.value, RefreshSecret)
      case Verified(subject) => Response(200, Json(jwt.sign(subject, AccessSecret)))
      case _ => Msg(403, BadRefresh)
  }

  /** The stored password verifies against the plain text it was hashed from. */
  lemma PreSaveHashVerifies(u: User, salt: string, crypto: Crypto)
    requires HashSound(crypto)
    ensures crypto.compare(u.password, PreSave(u, true, salt, crypto).password)
    ensures PreSave(u, false, salt, crypto) == u
  {
  }

  /** A user who has just registered can log in with the same email and
      password, and the login reports the new record. */
  lemma RegisterThenLogin(users: seq<User>, name: string, email: string, password: string,
                          newId: Id, salt: string, crypto: Crypto, jwt: Jwt)
    requires HashSound(crypto)
    requires ValidObjectId(newId) && forall j | 0 <= j < |users| :: users[j].id != newId
    requires RegisterUser(users, Some(name), Some(email), Some(password), newId, salt, crypto).response.status == 201
    ensures var after := RegisterUser(users, Some(name), Some(email), Some(password), newId, salt, crypto).state;
            var r := Login(after, email, password, crypto, jwt);
            && r.status == 200
            && r.body.value.user == Profile(newId, Trim(name), email, DefaultRole)
            && r.body.value.accessToken == jwt.sign(newId, AccessSecret)
  {
    var t := RegisterUser(users, Some(name), Some(email), Some(password), newId, salt, crypto);
    var after := t.state;
    var u := after[|users|];
    assert !IsEmailTaken(users, email);
    assert u.email == email && u.password == crypto.hash(password, salt);
    assert forall j | 0 <= j < |users| :: after[j] == users[j] by {
      assert after[..|users|] == users;
    }
    assert FindByEmail(after, email) == Some(|users|);
    assert crypto.compare(password, u.password);
  }

  /** The refresh token a login hands out buys an access token for the same user. */
  lemma LoginThenRefresh(users: seq<User>, email: string, password: string, crypto: Crypto, jwt: Jwt)
    requires TokensSound(jwt) && TokensCompact(jwt)
    requires Login(users, email, password, crypto, jwt).status == 200
    ensures var s := Login(users, email, password, crypto, jwt).body.value;
            Refresh(Some(s.refreshToken), jwt) == Response(200, Json(jwt.sign(s.user.id, AccessSecret)))
  {
  }

  /** The access token a login hands out, sent as "Bearer <token>", lets the
      same user past `protect`. */
  lemma LoginThenProtect(users: seq<User>, email: string, password: string, crypto: Crypto, jwt: Jwt)
    requires TokensSound(jwt) && TokensCompact(jwt)
    requires UsersInvariant(users)
    requires Login(users, email, password, crypto, jwt).status == 200
    ensures var s := Login(users, email, password, crypto, jwt).body.value;
            Protect(users, Some("Bearer " + s.accessToken), jwt) == Proceed(s.user)
  {
    var i := FindByEmail(users, email).value;
    var u := users[i];
    var token := jwt.sign(u.id, AccessSecret);
    var header := "Bearer " + token;
    assert Login(users, email, password, crypto, jwt).body.value.accessToken == token;
    assert Login(users, email, password, crypto, jwt).body.value.user == Public(u);
    assert HasBearerPrefix(Some(header)) by {
      assert StartsWith(header, "Bearer");
    }
    assert BearerToken(header) == Some(token) by {
      BearerTokenOfStandardHeader(token);
    }
    assert jwt.verify(token, AccessSecret) == Verified(u.id);
    assert FindUser(users, u.id) == Found(i) by {
      assert UserWellFormed(u);
      FindByIdUnique(users, UserKey, i);
    }
  }

  /** Registration keeps the identity store's invariant, given a hash that is
      never empty. */
  lemma RegisterUserPreservesInvariant(users: seq<User>, name: Option<string>, email: Option<string>,
                                       password: Option<string>, newId: Id, salt: string, crypto: Crypto)
    requires UsersInvariant(users) && HashesNonEmpty(crypto)
    requires ValidObjectId(newId) && forall j | 0 <= j < |users| :: users[j].id != newId
    ensures UsersInvariant(RegisterUser(users, name, email, password, newId, salt, crypto).state)
  {
    var t := RegisterUser(users, name, email, password, newId, salt, crypto);
    if t.response.status == 201 {
      var u := t.state[|users|];
      assert u.name == Trim(name.value) && u.email == email.value && u.id == newId;
      assert u.password == crypto.hash(password.value, salt);
      assert !IsEmailTaken(users, email.value);
      TrimIdempotent(name.value);
      assert UserWellFormed(u);
      assert t.state == users + [u] by {
        assert t.state[..|users|] == users;
      }
      AppendKeepsUsersInvariant(users, u);
    }
  }
}
