/** The FastAPI JWT backend of jwt_backend/main.py: the module-level user table
    users_db, and the route handlers register, login and protected, with the
    HTTP exceptions they raise as Result failures. */
module Backend {
  import opened Wrappers
  import opened Crypto
  import opened Tokens
  import opened Forms

  /** One users_db entry: {"name", "email", "password_hash", "role"}. Any role
      string is accepted. */
  datatype UserRecord = UserRecord(name: string, email: string, passwordHash: string, role: string)

  /** users_db, keyed by email. */
  type UserTable = map<string, UserRecord>

  /** The RegisterData request body. */
  datatype RegisterData = RegisterData(name: string, email: string, password: string, role: string)

  /** The OAuth2 password form: username (the email), password, and the scope
      string the client sends (the Flutter client puts the role there). */
  datatype LoginForm = LoginForm(username: string, password: string, scope: string)

  /** An HTTPException: status code and detail text. */
  datatype HttpError = HttpError(status: int, detail: string)

  const EmailAlreadyRegistered := HttpError(400, "Email already registered")
  const InvalidCredentials := HttpError(400, "Invalid credentials")
  const RoleMismatch := HttpError(403, "Role mismatch")
  const InvalidToken := HttpError(401, "Invalid or expired token")
  /** What the server answers when a handler raises an exception it does not
      catch, here OverflowError from datetime arithmetic. */
  const InternalServerError := HttpError(500, "Internal Server Error")

  const RegistrationSuccessful := "Registration successful"
  const BEARER := "bearer"

  /** The login response {"access_token", "token_type"}. */
  datatype TokenResponse = TokenResponse(accessToken: string, tokenType: string)

  /** The values `protected` interpolates into its welcome message:
      payload.get("sub") and payload.get("role"). */
  datatype Welcome = Welcome(user: Option<JsonValue>, role: Option<JsonValue>)

  /** SECRET_KEY, ALGORITHM and ACCESS_TOKEN_EXPIRE_MINUTES, as read from the
      environment at start-up. */
  datatype Settings = Settings(key: SigningKey, accessTokenExpireMinutes: int)

  const DEFAULT_ALGORITHM := "HS256"
  const DEFAULT_ACCESS_TOKEN_EXPIRE_MINUTES := 1440

  /** The settings when the environment sets only SECRET_KEY. */
  function DefaultSettings(secret: string): Settings {
    Settings(SigningKey(secret, DEFAULT_ALGORITHM), DEFAULT_ACCESS_TOKEN_EXPIRE_MINUTES)
  }

  /** The foreign services and configuration the handlers use. */
  datatype Services = Services(hasher: PasswordHasher, codec: TokenCodec, settings: Settings)

  /** users_db's shape: every record sits under its own email. */
  ghost predicate KeyedByEmail(users: UserTable) {
    forall e :: e in users ==> users[e].email == e
  }

  /** The record register stores: the plaintext password is replaced by its
      hash. */
  function NewRecord(data: RegisterData, hasher: PasswordHasher, salt: string): (u: UserRecord)
    ensures u.name == data.name && u.email == data.email && u.role == data.role
    ensures VerifiesOwnHash(hasher) ==> VerifyPassword(hasher, data.password, u.passwordHash)
  {
    UserRecord(data.name, data.email, HashPassword(hasher, data.password, salt), data.role)
  }

  /** register as a function of the table before the call: the response and
      the table after it. A known email is refused with 400 and the table is
      left as it was; a fresh email adds exactly one record, under that email,
      and keeps every other record. */
  function RegisterStep(users: UserTable, data: RegisterData, hasher: PasswordHasher, salt: string)
    : (res: (Result<string, HttpError>, UserTable))
    ensures data.email in users ==> res == (Failure(EmailAlreadyRegistered), users)
    ensures data.email !in users ==>
              && res.0 == Success(RegistrationSuccessful)
              && res.1.Keys == users.Keys + {data.email}
              && |res.1| == |users| + 1
              && (forall e :: e in users ==> res.1[e] == users[e])
              && res.1[data.email] == NewRecord(data, hasher, salt)
  {
    if data.email in users then (Failure(EmailAlreadyRegistered), users)
    else (Success(RegistrationSuccessful), users[data.email := NewRecord(data, hasher, salt)])
  }

  /** register never overwrites or drops a record, and keeps records under
      their own email. */
  lemma RegisterKeepsRecords(users: UserTable, data: RegisterData, hasher: PasswordHasher, salt: string)
    requires KeyedByEmail(users)
    ensures var users' := RegisterStep(users, data, hasher, salt).1;
            && KeyedByEmail(users')
            && (forall e :: e in users ==> e in users' && users'[e] == users[e])
  {
  }

  /** The in-memory users_db. */
  class UserStore {
    var users: UserTable

    ghost predicate Valid()
      reads this
    {
      KeyedByEmail(users)
    }

    /** users_db = {} */
    constructor ()
      ensures Valid() && users == map[]
    {
      users := map[];
    }

    /** register: refuse a known email, otherwise insert one record in place. */
    method Register(data: RegisterData, hasher: PasswordHasher, salt: string)
      returns (r: Result<string, HttpError>)
      requires Valid()
      modifies this
      ensures Valid()
      ensures data.email in old(users) ==> r == Failure(EmailAlreadyRegistered) && users == old(users)
      ensures data.email !in old(users) ==>
                && r == Success(RegistrationSuccessful)
                && users == old(users)[data.email := NewRecord(data, hasher, salt)]
      ensures (r, users) == RegisterStep(old(users), data, hasher, salt)
    {
      if data.email in users {
        return Failure(EmailAlreadyRegistered);
      }
      users := users[data.email := NewRecord(data, hasher, salt)];
      r := Success(RegistrationSuccessful);
    }
  }

  /** `form_data.scopes[0] if form_data.scopes else None`, where the form's
      scopes are its scope string split on whitespace. A requested role is
      always a scope token. */
  function RequestedRole(form: LoginForm): (role: Option<string>)
    ensures role.Some? ==> ScopeToken(role.value)
  {
    var scopes := Split(form.scope);
    if |scopes| > 0 then Some(scopes[0]) else None
  }

  /** A client that sends scopes joined by spaces requests the first of
      them, or no role when it sends none. */
  lemma RequestedRoleOfScopes(username: string, password: string, scopes: seq<string>)
    requires forall i :: 0 <= i < |scopes| ==> ScopeToken(scopes[i])
    ensures RequestedRole(LoginForm(username, password, JoinScopes(scopes)))
            == if |scopes| > 0 then Some(scopes[0]) else None
  {
    SplitJoin(scopes);
  }

  /** The user exists and the password verifies against the stored hash. */
  predicate CredentialsValid(users: UserTable, form: LoginForm, hasher: PasswordHasher) {
    form.username in users && VerifyPassword(hasher, form.password, users[form.username].passwordHash)
  }

  /** The checks of login, in their order, and the claims it then hands to
      create_access_token. An unknown email and a wrong password give one
      and the same 400; a 403 comes only after the credentials pass, when the
      requested role is not the stored one; on success the claims name the
      login email and the stored role. */
  function LoginChecks(users: UserTable, form: LoginForm, hasher: PasswordHasher): (r: Result<Claims, HttpError>)
    ensures r == Failure(InvalidCredentials) <==> !CredentialsValid(users, form, hasher)
    ensures r == Failure(RoleMismatch)
            <==> CredentialsValid(users, form, hasher) && RequestedRole(form) != Some(users[form.username].role)
    ensures r.Success? <==> CredentialsValid(users, form, hasher) && RequestedRole(form) == Some(users[form.username].role)
    ensures r.Success? ==>
              r.value == map["sub" := JStr(form.username), "role" := JStr(users[form.username].role)]
  {
    var email := form.username;
    var role := RequestedRole(form);
    if email !in users || !VerifyPassword(hasher, form.password, users[email].passwordHash) then
      Failure(InvalidCredentials)
    else if role != Some(users[email].role) then
      Failure(RoleMismatch)
    else
      Success(map["sub" := JStr(email), "role" := JStr(role.value)])
  }

  /** The expiry of a token issued at `now`: `now` plus
      ACCESS_TOKEN_EXPIRE_MINUTES (fifteen minutes if that is 0), or None
      where building the timedelta or the expiry datetime overflows. */
  function LoginExpiry(settings: Settings, now: int): (exp: Option<int>)
    ensures exp.Some? ==> InDatetimeRange(exp.value)
    ensures exp.Some? && settings.accessTokenExpireMinutes != 0 ==>
              exp.value == now + settings.accessTokenExpireMinutes * 60
    ensures exp.Some? && settings.accessTokenExpireMinutes == 0 ==> exp.value == now + DEFAULT_EXPIRES_SECONDS
    ensures exp.None? <==> !TimedeltaInRange(settings.accessTokenExpireMinutes * 60)
                           || !InDatetimeRange(now + EffectiveDelta(Some(settings.accessTokenExpireMinutes * 60)))
  {
    var lifetime := settings.accessTokenExpireMinutes * 60;
    if !TimedeltaInRange(lifetime) then None
    else
      var exp := now + EffectiveDelta(Some(lifetime));
      if InDatetimeRange(exp) then Some(exp) else None
  }

  /** login: the checks, then a signed bearer token. It fails with the one
      400 exactly when the credentials are invalid, with 403 exactly when they
      are valid and the requested role is not the stored one, and with 500
      exactly when both checks pass and the expiry overflows; a successful
      login signs sub = login email, role = stored role and the expiry. */
  function Login(users: UserTable, form: LoginForm, services: Services, now: int): (r: Result<TokenResponse, HttpError>)
    ensures r == Failure(InvalidCredentials) <==> !CredentialsValid(users, form, services.hasher)
    ensures r == Failure(RoleMismatch)
            <==> CredentialsValid(users, form, services.hasher)
                 && RequestedRole(form) != Some(users[form.username].role)
    ensures r == Failure(InternalServerError)
            <==> CredentialsValid(users, form, services.hasher)
                 && RequestedRole(form) == Some(users[form.username].role)
                 && LoginExpiry(services.settings, now).None?
    ensures r.Success? <==> CredentialsValid(users, form, services.hasher)
                            && RequestedRole(form) == Some(users[form.username].role)
                            && LoginExpiry(services.settings, now).Some?
    ensures r.Success? ==>
              var claims := map["sub" := JStr(form.username), "role" := JStr(users[form.username].role),
                                "exp" := JInt(LoginExpiry(services.settings, now).value)];
              r.value == TokenResponse(services.codec.encode(claims, services.settings.key), BEARER)
  {
    match LoginChecks(users, form, services.hasher)
    case Failure(e) => Failure(e)
    case Success(data) =>
      var lifetime := services.settings.accessTokenExpireMinutes * 60;
      if !TimedeltaInRange(lifetime) then Failure(InternalServerError)
      else
        match CreateAccessToken(services.codec, services.settings.key, data, Some(lifetime), now)
        case None => Failure(InternalServerError)
        case Some(token) =>
          assert AccessTokenClaims(data, Some(lifetime), now).value
                 == map["sub" := JStr(form.username), "role" := JStr(users[form.username].role),
                        "exp" := JInt(LoginExpiry(services.settings, now).value)];
          Success(TokenResponse(token, BEARER))
  }

  /** dict.get */
  function Lookup(payload: Claims, name: string): (v: Option<JsonValue>)
    ensures v.Some? <==> name in payload
    ensures v.Some? ==> v.value == payload[name]
  {
    if name in payload then Some(payload[name]) else None
  }

  /** protected: decode the bearer token. It answers 401 exactly when the
      token does not decode, and otherwise reports the decoded "sub" and
      "role", each None when the payload lacks it. */
  function Protected(token: string, services: Services, now: int): (r: Result<Welcome, HttpError>)
    ensures var decoded := services.codec.decode(token, services.settings.key, now);
            && (r.Failure? <==> decoded == None)
            && (r.Failure? ==> r.error == InvalidToken)
            && (decoded.Some? ==> r == Success(Welcome(Lookup(decoded.value, "sub"), Lookup(decoded.value, "role"))))
  {
    match services.codec.decode(token, services.settings.key, now)
    case None => Failure(InvalidToken)
    case Some(payload) =>
      Success(Welcome(Lookup(payload, "sub"), Lookup(payload, "role")))
  }

  /** Under the codec axiom, the token of a successful login is accepted by
      protected until it expires, which reports exactly the login email and
      the stored role; from the next second on it is refused with 401. */
  lemma LoginThenProtected(users: UserTable, form: LoginForm, services: Services, now: int, later: int)
    requires SoundCodec(services.codec)
    requires Login(users, form, services, now).Success?
    ensures var token := Login(users, form, services, now).value.accessToken;
            var exp := LoginExpiry(services.settings, now).value;
            && (later <= exp ==>
                  Protected(token, services, later)
                  == Success(Welcome(Some(JStr(form.username)), Some(JStr(users[form.username].role)))))
            && (later > exp ==> Protected(token, services, later) == Failure(InvalidToken))
  {
    var data := LoginChecks(users, form, services.hasher).value;
    var lifetime := services.settings.accessTokenExpireMinutes * 60;
    var token := CreateAccessToken(services.codec, services.settings.key, data, Some(lifetime), now);
    assert token.Some? && token.value == Login(users, form, services, now).value.accessToken;
  }

  /** Under the hashing axiom, a user who has just registered can log in with
      the same password, sending the registered role as the scope, as long as
      that role is a scope token and the expiry does not overflow. */
  lemma RegisterThenLogin(users: UserTable, data: RegisterData, services: Services, salt: string, now: int)
    requires VerifiesOwnHash(services.hasher)
    requires data.email !in users
    requires ScopeToken(data.role)
    requires LoginExpiry(services.settings, now).Some?
    ensures var users' := RegisterStep(users, data, services.hasher, salt).1;
            Login(users', LoginForm(data.email, data.password, data.role), services, now).Success?
  {
    SplitWord(data.role);
  }

  /** A user whose stored role is not a scope token (empty, or holding
      whitespace) can never log in: whatever scope string the client sends,
      the requested role differs from it. */
  lemma UnsplittableRoleCannotLogIn(users: UserTable, form: LoginForm, services: Services, now: int)
    requires form.username in users
    requires !ScopeToken(users[form.username].role)
    ensures !Login(users, form, services, now).Success?
    ensures CredentialsValid(users, form, services.hasher) ==> Login(users, form, services, now) == Failure(RoleMismatch)
  {
  }
}
