/** The authentication routes (backend/src/routes/auth.ts). Password hashing
    and token signing are outside the model: registration receives
    `bcrypt.hash` as the function `hash`, and login receives `bcrypt.compare`
    as the relation `matches` and `jwt.sign` over the token's claims as `sign`. */
module AuthRoutes {
  import opened JsArrays
  import opened Types
  import opened Storage

  const CredentialsRequired := "Username and password are required"
  const UsernameTooShort := "Username must be at least 3 characters long"
  const PasswordTooShort := "Password must be at least 6 characters long"
  const UsernameTaken := "Username already exists"
  const UserCreatedMessage := "User created successfully"
  const InvalidCredentials := "Invalid credentials"

  /** POST /api/auth/register. `hash` stands for `bcrypt.hash` at the
      configured salt rounds, `id` for `generateId()` and `now` for the
      creation time. */
  method Register(store: Store, username: Option<string>, password: Option<string>,
                  hash: string -> string, id: string, now: int)
    returns (response: Response)
    requires store.Valid()
    modifies store
    ensures store.Valid()
    ensures store.discussions == old(store.discussions) && store.operations == old(store.operations)
    // the rejections, in the order the handler tries them
    ensures !Truthy(username) || !Truthy(password) ==>
              response == Response(400, ErrorMessage(CredentialsRequired))
    ensures Truthy(username) && Truthy(password) && |username.value| < 3 ==>
              response == Response(400, ErrorMessage(UsernameTooShort))
    ensures Truthy(username) && Truthy(password) && |username.value| >= 3 && |password.value| < 6 ==>
              response == Response(400, ErrorMessage(PasswordTooShort))
    ensures && Truthy(username) && Truthy(password) && |username.value| >= 3 && |password.value| >= 6
            && FindUserByUsername(old(store.users), username.value).Some? ==>
              response == Response(409, ErrorMessage(UsernameTaken))
    // only a fresh, long enough name with a long enough password is stored
    ensures response.status != 201 ==> store.users == old(store.users)
    ensures response.status == 201 <==>
              && Truthy(username) && Truthy(password) && |username.value| >= 3 && |password.value| >= 6
              && FindUserByUsername(old(store.users), username.value).None?
    ensures response.status == 201 ==>
              && store.users == old(store.users) + [User(id, username.value, hash(password.value), now)]
              && response.payload == UserCreated(UserCreatedMessage, id)
  {
    if !Truthy(username) || !Truthy(password) {
      return Response(400, ErrorMessage(CredentialsRequired));
    }
    if |username.value| < 3 {
      return Response(400, ErrorMessage(UsernameTooShort));
    }
    if |password.value| < 6 {
      return Response(400, ErrorMessage(PasswordTooShort));
    }
    var existingUser := FindUserByUsername(store.users, username.value);
    if existingUser.Some? {
      return Response(409, ErrorMessage(UsernameTaken));
    }
    var hashedPassword := hash(password.value);
    var newUser := User(id, username.value, hashedPassword, now);
    store.AddUser(newUser);
    response := Response(201, UserCreated(UserCreatedMessage, id));
  }

  /** A user appended under a name nobody had is the one a later lookup of
      that name finds, and every other name still finds what it found before. */
  lemma RegisteredUserFound(users: seq<User>, u: User, name: string)
    requires FindUserByUsername(users, u.username).None?
    ensures FindUserByUsername(users + [u], name) ==
              if name == u.username then Some(u) else FindUserByUsername(users, name)
  {
    var users' := users + [u];
    var r := FindUserByUsername(users', name);
    if r.Some? {
      var i :| 0 <= i < |users'| && users'[i] == r.value
               && forall j :: 0 <= j < i ==> users'[j].username != name;
      if i < |users| {
        assert users[i] == users'[i];
        assert forall j :: 0 <= j < i ==> users[j] == users'[j];
      } else {
        assert forall j :: 0 <= j < |users| ==> users[j] == users'[j];
      }
    } else {
      assert users'[|users|] == u;
      forall j | 0 <= j < |users| ensures users[j].username != name {
        assert users[j] == users'[j];
      }
    }
  }

  /** POST /api/auth/login. An unknown name and a wrong password get the
      same answer. */
  method Login(store: Store, username: Option<string>, password: Option<string>,
               matches: (string, string) -> bool, sign: (string, string) -> string)
    returns (response: Response)
    ensures !Truthy(username) || !Truthy(password) ==>
              response == Response(400, ErrorMessage(CredentialsRequired))
    ensures && Truthy(username) && Truthy(password)
            && (|| FindUserByUsername(store.users, username.value).None?
                || !matches(password.value, FindUserByUsername(store.users, username.value).value.password)) ==>
              response == Response(401, ErrorMessage(InvalidCredentials))
    ensures response.status == 200 <==>
              && Truthy(username) && Truthy(password)
              && FindUserByUsername(store.users, username.value).Some?
              && matches(password.value, FindUserByUsername(store.users, username.value).value.password)
    ensures response.status == 200 ==>
              var user := FindUserByUsername(store.users, username.value).value;
              && user in store.users && user.username == username.value
              && response.payload == LoginSuccess(sign(user.id, user.username), user.id, user.username)
  {
    if !Truthy(username) || !Truthy(password) {
      return Response(400, ErrorMessage(CredentialsRequired));
    }
    var user := FindUserByUsername(store.users, username.value);
    if user.None? {
      return Response(401, ErrorMessage(InvalidCredentials));
    }
    var isValidPassword := matches(password.value, user.value.password);
    if !isValidPassword {
      return Response(401, ErrorMessage(InvalidCredentials));
    }
    var token := sign(user.value.id, user.value.username);
    response := Response(200, LoginSuccess(token, user.value.id, user.value.username));
  }

  /** Registering and then logging in with the same credentials succeeds
      for the new user whenever `bcrypt.compare` accepts a password against
      its own hash; a refused registration adds no user. */
  method RegisterThenLogin(store: Store, username: Option<string>, password: Option<string>,
                           hash: string -> string, matches: (string, string) -> bool,
                           sign: (string, string) -> string, id: string, now: int)
    returns (registered: Response, login: Response)
    requires store.Valid()
    requires password.Some? ==> matches(password.value, hash(password.value))
    modifies store
    ensures store.Valid()
    ensures registered.status == 201 ==>
              && Truthy(username) && Truthy(password)
              && store.users == old(store.users) + [User(id, username.value, hash(password.value), now)]
              && login == Response(200, LoginSuccess(sign(id, username.value), id, username.value))
    ensures registered.status != 201 ==> store.users == old(store.users)
  {
    registered := Register(store, username, password, hash, id, now);
    if registered.status == 201 {
      RegisteredUserFound(old(store.users), User(id, username.value, hash(password.value), now), username.value);
    }
    login := Login(store, username, password, matches, sign);
  }
}
