/** The backend serving a sequence of requests, one after another, against the
    one shared users_db. */
module Server {
  import opened Wrappers
  import opened Crypto
  import opened Forms
  import opened Tokens
  import opened Backend

  /** A call of one of the three routes. `salt` is the randomness bcrypt draws
      during register; `now` is the clock reading at the call. */
  datatype Request =
    | RegisterRequest(data: RegisterData, salt: string)
    | LoginRequest(form: LoginForm, now: int)
    | ProtectedRequest(token: string, now: int)

  /** The body of a successful response. */
  datatype Reply = Message(text: string) | Token(response: TokenResponse) | Greeting(welcome: Welcome)

  /** The table after one call: only register writes users_db. */
  function TableAfter(users: UserTable, req: Request, hasher: PasswordHasher): UserTable {
    match req
    case RegisterRequest(data, salt) => RegisterStep(users, data, hasher, salt).1
    case _ => users
  }

  /** The table after a run of calls. */
  function FinalTable(users: UserTable, reqs: seq<Request>, hasher: PasswordHasher): UserTable
    decreases |reqs|
  {
    if reqs == [] then users else FinalTable(TableAfter(users, reqs[0], hasher), reqs[1..], hasher)
  }

  /** One route call: its response and the table after it. login and
      protected leave users_db as it was. */
  function Handle(users: UserTable, req: Request, services: Services): (res: (Result<Reply, HttpError>, UserTable))
    ensures res.1 == TableAfter(users, req, services.hasher)
    ensures !req.RegisterRequest? ==> res.1 == users
  {
    match req
    case RegisterRequest(data, salt) =>
      var (r, users') := RegisterStep(users, data, services.hasher, salt);
      (match r case Success(m) => Success(Message(m)) case Failure(e) => Failure(e), users')
    case LoginRequest(form, now) =>
      (match Login(users, form, services, now) case Success(t) => Success(Token(t)) case Failure(e) => Failure(e), users)
    case ProtectedRequest(token, now) =>
      (match Protected(token, services, now) case Success(w) => Success(Greeting(w)) case Failure(e) => Failure(e), users)
  }

  /** The calls served in order: exactly one response per call, and the
      table the run leaves behind. */
  function Serve(users: UserTable, reqs: seq<Request>, services: Services): (res: (seq<Result<Reply, HttpError>>, UserTable))
    ensures |res.0| == |reqs|
    ensures res.1 == FinalTable(users, reqs, services.hasher)
    decreases |reqs|
  {
    if reqs == [] then ([], users)
    else
      var (r, users') := Handle(users, reqs[0], services);
      var (rs, final) := Serve(users', reqs[1..], services);
      ([r] + rs, final)
  }

  /** The i-th response of a run is the handler's answer to the i-th call,
      served on the table the calls before it left behind. */
  lemma {:induction false} ServeResponses(users: UserTable, reqs: seq<Request>, services: Services, i: int)
    requires 0 <= i < |reqs|
    ensures Serve(users, reqs, services).0[i] == Handle(FinalTable(users, reqs[..i], services.hasher), reqs[i], services).0
    decreases |reqs|
  {
    if i == 0 {
      assert reqs[..0] == [];
    } else {
      var users' := Handle(users, reqs[0], services).1;
      ServeResponses(users', reqs[1..], services, i - 1);
      assert reqs[..i][1..] == reqs[1..][..i - 1];
      assert reqs[..i][0] == reqs[0];
    }
  }

  /** The emails of the register calls in a sequence. */
  function RegisteredEmails(reqs: seq<Request>): set<string>
    decreases |reqs|
  {
    if reqs == [] then {}
    else (if reqs[0].RegisterRequest? then {reqs[0].data.email} else {}) + RegisteredEmails(reqs[1..])
  }

  /** Over any run, records stay under their own email and no record is
      ever overwritten or dropped. */
  lemma {:induction false} ServeKeepsRecords(users: UserTable, reqs: seq<Request>, hasher: PasswordHasher)
    requires KeyedByEmail(users)
    ensures var final := FinalTable(users, reqs, hasher);
            && KeyedByEmail(final)
            && (forall e :: e in users ==> e in final && final[e] == users[e])
    decreases |reqs|
  {
    if reqs != [] {
      var users' := TableAfter(users, reqs[0], hasher);
      if reqs[0].RegisterRequest? {
        RegisterKeepsRecords(users, reqs[0].data, hasher, reqs[0].salt);
      }
      ServeKeepsRecords(users', reqs[1..], hasher);
    }
  }

  /** Over any run, the emails present at the end are those present at the
      start plus those of the register calls. */
  lemma {:induction false} ServeEmails(users: UserTable, reqs: seq<Request>, hasher: PasswordHasher)
    ensures FinalTable(users, reqs, hasher).Keys == users.Keys + RegisteredEmails(reqs)
    decreases |reqs|
  {
    if reqs != [] {
      var users' := TableAfter(users, reqs[0], hasher);
      var added := if reqs[0].RegisterRequest? then {reqs[0].data.email} else {};
      assert users'.Keys == users.Keys + added;
      assert RegisteredEmails(reqs) == added + RegisteredEmails(reqs[1..]);
      ServeEmails(users', reqs[1..], hasher);
    }
  }

  /** The call registers the email `e`. */
  predicate RegistersEmail(req: Request, e: string) {
    req.RegisterRequest? && req.data.email == e
  }

  /** reqs[i] is the first call in `reqs` that registers `e`. */
  predicate FirstRegistration(reqs: seq<Request>, e: string, i: int) {
    && 0 <= i < |reqs| && RegistersEmail(reqs[i], e)
    && forall j :: 0 <= j < i ==> !RegistersEmail(reqs[j], e)
  }

  /** The first registration of `e` after a call that does not register it
      is the first registration of the whole run. */
  lemma FirstRegistrationShift(reqs: seq<Request>, e: string, j: int)
    requires reqs != [] && !RegistersEmail(reqs[0], e)
    requires FirstRegistration(reqs[1..], e, j)
    ensures FirstRegistration(reqs, e, j + 1)
  {
    forall k | 0 <= k < j + 1 ensures !RegistersEmail(reqs[k], e) {
      if k > 0 { assert reqs[k] == reqs[1..][k - 1]; }
    }
  }

  /** Over any run, a record that was not there at the start is the one the
      first register call for its email stored. */
  lemma {:induction false} ServeRecordsComeFromRegister(users: UserTable, reqs: seq<Request>, hasher: PasswordHasher, e: string)
    requires e !in users
    requires e in FinalTable(users, reqs, hasher)
    ensures exists i :: FirstRegistration(reqs, e, i)
              && FinalTable(users, reqs, hasher)[e] == NewRecord(reqs[i].data, hasher, reqs[i].salt)
    decreases |reqs|
  {
    if reqs == [] {
      assert false;
    } else {
      var final := FinalTable(users, reqs, hasher);
      var users' := TableAfter(users, reqs[0], hasher);
      assert final == FinalTable(users', reqs[1..], hasher);
      if e in users' {
        // the first call registered e; it is never overwritten afterwards
        ServeKeepsRecordsAt(users', reqs[1..], hasher, e);
        assert FirstRegistration(reqs, e, 0) && final[e] == NewRecord(reqs[0].data, hasher, reqs[0].salt);
      } else {
        // the first call did not register e, else e would now be present
        ServeRecordsComeFromRegister(users', reqs[1..], hasher, e);
        var j :| FirstRegistration(reqs[1..], e, j)
                 && final[e] == NewRecord(reqs[1..][j].data, hasher, reqs[1..][j].salt);
        FirstRegistrationShift(reqs, e, j);
        assert reqs[j + 1] == reqs[1..][j];
      }
    }
  }

  /** Under the hashing axiom, every account a run created logs in at the end
      of the run with the password of its first register call, sending that
      call's role as the scope, whenever that role is a scope token and the
      expiry does not overflow. */
  lemma ServeRegisteredCanLogIn(users: UserTable, reqs: seq<Request>, services: Services, e: string, i: nat, now: int)
    requires VerifiesOwnHash(services.hasher)
    requires e !in users
    requires FirstRegistration(reqs, e, i)
    requires ScopeToken(reqs[i].data.role)
    requires LoginExpiry(services.settings, now).Some?
    ensures Login(Serve(users, reqs, services).1, LoginForm(e, reqs[i].data.password, reqs[i].data.role),
                  services, now).Success?
  {
    var final := FinalTable(users, reqs, services.hasher);
    ServeEmails(users, reqs, services.hasher);
    RegisteredEmailsHas(reqs, i);
    ServeRecordsComeFromRegister(users, reqs, services.hasher, e);
    var k :| FirstRegistration(reqs, e, k) && final[e] == NewRecord(reqs[k].data, services.hasher, reqs[k].salt);
    assert k == i;
    SplitWord(reqs[i].data.role);
    assert RequestedRole(LoginForm(e, reqs[i].data.password, reqs[i].data.role)) == Some(final[e].role);
  }

  /** The email of every register call in a run is among its registered
      emails. */
  lemma {:induction false} RegisteredEmailsHas(reqs: seq<Request>, i: nat)
    requires i < |reqs| && reqs[i].RegisterRequest?
    ensures reqs[i].data.email in RegisteredEmails(reqs)
    decreases |reqs|
  {
    if i > 0 {
      assert reqs[1..][i - 1] == reqs[i];
      RegisteredEmailsHas(reqs[1..], i - 1);
    }
  }

  /** A record already in the table stays as it is for the rest of a run. */
  lemma {:induction false} ServeKeepsRecordsAt(users: UserTable, reqs: seq<Request>, hasher: PasswordHasher, e: string)
    requires e in users
    ensures e in FinalTable(users, reqs, hasher) && FinalTable(users, reqs, hasher)[e] == users[e]
    decreases |reqs|
  {
    if reqs != [] {
      var users' := TableAfter(users, reqs[0], hasher);
      assert e in users' && users'[e] == users[e];
      ServeKeepsRecordsAt(users', reqs[1..], hasher, e);
    }
  }

  /** The registration of the example user alice/"p@ss"/student. */
  function Alice(): RegisterData {
    RegisterData("Alice", "alice", "p@ss", "student")
  }

  /** The table after alice registers on an empty one. */
  function AliceTable(services: Services, salt: string): UserTable {
    RegisterStep(map[], Alice(), services.hasher, salt).1
  }

  /** Under the default settings, alice registers on an empty table
      (success), logs in with the same credentials and scope "student" (a
      token), and calls protected with that token: up to a day later it
      reports alice and student, after that it answers 401. */
  lemma AliceSession(services: Services, secret: string, salt: string, now: int, later: int)
    requires VerifiesOwnHash(services.hasher) && SoundCodec(services.codec)
    requires services.settings == DefaultSettings(secret)
    requires InDatetimeRange(now + 24 * 60 * 60)
    ensures RegisterStep(map[], Alice(), services.hasher, salt).0 == Success(RegistrationSuccessful)
    ensures var login := Login(AliceTable(services, salt), LoginForm("alice", "p@ss", "student"), services, now);
            && login.Success?
            && (later <= now + 24 * 60 * 60 ==>
                  Protected(login.value.accessToken, services, later)
                  == Success(Welcome(Some(JStr("alice")), Some(JStr("student")))))
            && (later > now + 24 * 60 * 60 ==>
                  Protected(login.value.accessToken, services, later) == Failure(InvalidToken))
  {
    assert LoginExpiry(services.settings, now) == Some(now + 24 * 60 * 60) by {
      assert TimedeltaInRange(DEFAULT_ACCESS_TOKEN_EXPIRE_MINUTES * 60);
    }
    assert ScopeToken("student");
    RegisterThenLogin(map[], Alice(), services, salt, now);
    LoginThenProtected(AliceTable(services, salt), LoginForm("alice", "p@ss", "student"), services, now, later);
  }

  /** Once alice is registered: a wrong password and an unknown email get the
      same 400, scope "admin" and no scope at all get 403, and registering
      alice again gets 400 and leaves the table as it was. */
  lemma AliceRefused(services: Services, salt: string, now: int)
    requires VerifiesOwnHash(services.hasher)
    requires !services.hasher.verify("wrong", services.hasher.hash("p@ss", salt))
    ensures var t := AliceTable(services, salt);
            && Login(t, LoginForm("alice", "wrong", "student"), services, now)
               == Login(t, LoginForm("bob", "p@ss", "student"), services, now)
               == Failure(InvalidCredentials)
            && Login(t, LoginForm("alice", "p@ss", "admin"), services, now) == Failure(RoleMismatch)
            && Login(t, LoginForm("alice", "p@ss", ""), services, now) == Failure(RoleMismatch)
            && RegisterStep(t, Alice(), services.hasher, salt) == (Failure(EmailAlreadyRegistered), t)
  {
    var t := AliceTable(services, salt);
    assert t == map["alice" := NewRecord(Alice(), services.hasher, salt)];
    assert RequestedRole(LoginForm("alice", "p@ss", "admin")) == Some("admin") by {
      assert ScopeToken("admin");
      SplitWord("admin");
    }
    assert RequestedRole(LoginForm("alice", "p@ss", "")) == None;
  }
}
