/**
  Registration and login. Registration validates the body, refuses an email
  that is already stored, hashes the password and inserts the user; login
  looks the user up by email, compares the password with the stored hash
  and returns a signed bearer token carrying the user's public fields.
 */
module AuthController {
  import opened Http
  import opened Records
  import opened Prisma

  const EmailTakenMessage := "Email Already Taken"
  const NoUserMessage := "No User Found With This Email."
  const BadCredentialsMessage := "Invalid Credentials..."

  /** The row `register` inserts: the payload with its password replaced by the hash. */
  function NewUser(p: RegisterPayload, svc: Services): User
  {
    User(p.name, p.email, svc.hash(p.password), None)
  }

  /** The token claims built from a stored user: `{ id, name, email, profile }`. */
  function ClaimsOf(id: int, u: User): Claims
  {
    Claims(id, u.name, u.email, u.profile)
  }

  /** `POST /auth/register`. */
  method Register(db: Database, body: Body, svc: Services) returns (r: Response)
    requires db.Valid()
    modifies db`users, db`nextUserId
    ensures db.Valid()
    // a body the schema rejects: 400 with the validator's messages
    ensures svc.registerSchema(body).Invalid? ==>
              r == Response(400, ValidationErrors(svc.registerSchema(body).messages))
    // any other failure of the store: the generic 500
    ensures svc.registerSchema(body).Valid? && !db.online ==> r == ServerError()
    // an email that is already stored
    ensures svc.registerSchema(body).Valid? && db.online
            && EmailTaken(old(db.users), svc.registerSchema(body).payload.email) ==>
              r == FieldError("email", EmailTakenMessage)
    // a fresh email whose insert is rejected: the generic 500
    ensures svc.registerSchema(body).Valid? && db.online && !db.writable
            && !EmailTaken(old(db.users), svc.registerSchema(body).payload.email) ==>
              r == ServerError()
    // a fresh email: exactly one new row, under the next id, with the hashed password
    ensures r.code == 200 <==>
              svc.registerSchema(body).Valid? && db.online && db.writable
              && !EmailTaken(old(db.users), svc.registerSchema(body).payload.email)
    ensures r.code == 200 ==>
              var u := NewUser(svc.registerSchema(body).payload, svc);
              && db.users == old(db.users)[old(db.nextUserId) := u]
              && db.nextUserId == old(db.nextUserId) + 1
              && old(db.nextUserId) !in old(db.users)
              && r == Response(200, UserCreated(200, "User Created Successfully", ToRecord(old(db.nextUserId), u)))
    ensures r.code != 200 ==> db.users == old(db.users) && db.nextUserId == old(db.nextUserId)
  {
    var v := svc.registerSchema(body);
    if v.Invalid? {
      return Response(400, ValidationErrors(v.messages));
    }
    var p := v.payload;
    if !db.online {
      return ServerError();
    }
    var found := FindUserByEmail(db.users, p.email);
    if found.Some? {
      return FieldError("email", EmailTakenMessage);
    }
    var u := NewUser(p, svc);
    if !db.writable {
      return ServerError();
    }
    var id := db.CreateUser(u);
    r := Response(200, UserCreated(200, "User Created Successfully", ToRecord(id, u)));
  }

  /** `POST /auth/login`: a function of the Users table, which it therefore cannot change. */
  function Login(users: UserTable, online: bool, body: Body, svc: Services): (r: Response)
    requires EmailsUnique(users)
    ensures svc.loginSchema(body).Invalid? ==>
              r == Response(400, ValidationErrors(svc.loginSchema(body).messages))
    ensures svc.loginSchema(body).Valid? && !online ==> r == ServerError()
    ensures svc.loginSchema(body).Valid? && online
            && !EmailTaken(users, svc.loginSchema(body).payload.email) ==>
              r == FieldError("email", NoUserMessage)
    ensures svc.loginSchema(body).Valid? && online ==>
              forall id :: id in users && users[id].email == svc.loginSchema(body).payload.email
                           && !svc.verify(svc.loginSchema(body).payload.password, users[id].password) ==>
                             r == FieldError("email", BadCredentialsMessage)
    // a token is issued exactly when a stored user has that email and the password matches its hash
    ensures r.payload.LoggedIn? <==>
              svc.loginSchema(body).Valid? && online
              && exists id :: id in users && users[id].email == svc.loginSchema(body).payload.email
                              && svc.verify(svc.loginSchema(body).payload.password, users[id].password)
    ensures r.payload.LoggedIn? ==>
              exists id :: id in users && users[id].email == svc.loginSchema(body).payload.email
                           && r == Response(200, LoggedIn("Log In Successfully", "Bearer " + svc.sign(ClaimsOf(id, users[id]))))
  {
    match svc.loginSchema(body)
    case Invalid(messages) => Response(400, ValidationErrors(messages))
    case Valid(p) =>
      if !online then ServerError()
      else
        match FindUserByEmail(users, p.email)
        case None => FieldError("email", NoUserMessage)
        case Some(id) =>
          if !svc.verify(p.password, users[id].password) then FieldError("email", BadCredentialsMessage)
          else
            var token := svc.sign(ClaimsOf(id, users[id]));
            Response(200, LoggedIn("Log In Successfully", "Bearer " + token))
  }

  /**
    A user just registered can log in with the same email and password, and
    the token carries the new row's id and fields, provided the password
    comparison accepts the hash it was given.
   */
  lemma LoginAfterRegistration(users: UserTable, id: int, p: RegisterPayload, body: Body, svc: Services)
    requires EmailsUnique(users) && !EmailTaken(users, p.email) && id !in users
    requires svc.loginSchema(body) == Valid(LoginPayload(p.email, p.password))
    requires svc.verify(p.password, svc.hash(p.password))
    ensures EmailsUnique(users[id := NewUser(p, svc)])
    ensures Login(users[id := NewUser(p, svc)], true, body, svc)
            == Response(200, LoggedIn("Log In Successfully", "Bearer " + svc.sign(Claims(id, p.name, p.email, None))))
  {
    var users' := users[id := NewUser(p, svc)];
    InsertFreshEmailKeepsUnique(users, id, NewUser(p, svc));
    assert FindUserByEmail(users', p.email) == Some(id);
  }
}
