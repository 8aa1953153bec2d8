# JWT credential store and login flow

A Dafny model of the FastAPI authentication backend in `jwt_backend/main.py`:
the in-memory user table `users_db`, the `register`, `login` (`/token`) and
`protected` route handlers, and the token issuer `create_access_token`.

- `wrappers.dfy` — `Option` and `Result`.
- `crypto.dfy` (module `Crypto`) — the two foreign libraries, bcrypt through
  passlib and JWT through python-jose. They are kept abstract as records of
  functions (`PasswordHasher`, `TokenCodec`). The one property the backend
  relies on from each is stated as an explicit hypothesis:
  - `VerifiesOwnHash`: a password verifies against any salted hash of itself.
  - `SoundCodec`: for the payloads this backend signs (`IssuableClaims`:
    `sub` and `role` strings and an integer `exp`, no other claim), a token
    signed with a key decodes under that key to exactly the signed payload
    while `now <= exp`, and fails after that. The axiom says nothing about
    other payloads; jose rejects some of them, such as an `aud` claim when no
    audience is given. The one caller, main.py:119, signs only issuable
    payloads.

  A lemma that relies on a hypothesis either requires it or states its
  conclusion as an implication from it (`VerifiesOwnHash(h) ==> …`).
  `HashingAxiomSatisfiable` and `CodecAxiomSatisfiable` show that each
  hypothesis can be met. The witness codec writes each claim behind a tag,
  with lengths in unary, so no two issuable payloads share a token.
- `forms.dfy` (module `Forms`) — the scope field of the OAuth2 password form.
  The client sends one string; it is split on whitespace with the rules of
  Python's `str.split()`. Login reads the first word as the requested role.
- `tokens.dfy` (module `Tokens`) — `create_access_token`. It copies the
  claims, sets `exp` to now plus the delta, and signs. The delta falls back
  to fifteen minutes when it is missing and also when it is zero, because
  Python treats a zero `timedelta` as false. Datetime arithmetic that leaves
  the years 1 to 9999 raises `OverflowError`; the model returns no token then.
- `backend.dfy` (module `Backend`) — the user records, the HTTP errors and
  the handlers:
  - 400 for a duplicate email;
  - 400 for invalid credentials;
  - 403 for a role mismatch;
  - 401 for a bad token;
  - 500 when the expiry overflows.

  `UserStore` is the module-level dictionary: a class with a map field that
  `Register` updates in place. `RegisterStep` is the same operation as a
  function on the table. Login and protected are pure functions of the
  table, the request, the services and the clock.
- `server.dfy` (module `Server`) — a run of several route calls, one after
  another, against the one shared table, and the invariants that hold over
  any such run.

Time is an integer count of seconds since the Unix epoch, passed in as `now`.
bcrypt's random salt is passed in as `salt`. The secret key, the algorithm and
ACCESS_TOKEN_EXPIRE_MINUTES form a `Settings` value; `DefaultSettings` holds
the defaults of main.py:27-28.

Facts about main.py the model keeps:
- A role is any string (main.py:59, 99). A stored role that is empty or holds
  whitespace can never log in, since no scope word equals it.
- Bad credentials give 400 (main.py:113).
- A token is still accepted in the second its `exp` names, which is jose's
  rule with no leeway.
- `protected` returns the subject and role of any decodable token; it checks
  no role (main.py:126-130).

## Model

| member | source | states |
|---|---|---|
| Crypto.HashPassword | jwt_backend/main.py:68-69 | under the hashing axiom the plaintext verifies against the hash that is stored for it |
| Crypto.VerifyPassword | jwt_backend/main.py:71-72 | under the hashing axiom verify accepts every hash of the plaintext, whatever its salt |
| Forms.Split | jwt_backend/main.py:106-109 | every scope word is non-empty and holds no whitespace |
| Forms.SplitJoin | jwt_backend/main.py:106-109 | splitting a scope string joined by spaces from scope words gives back exactly those words |
| Tokens.EffectiveDelta | jwt_backend/main.py:76 | a non-zero delta is used as given; a missing or zero delta becomes fifteen minutes; the result is never zero |
| Tokens.AccessTokenClaims | jwt_backend/main.py:74-77 | no payload if and only if the expiry leaves the datetime range; otherwise it keeps every caller claim other than exp, adds only exp, and sets exp to now plus the effective delta |
| Tokens.CreateAccessToken | jwt_backend/main.py:74-79 | a token exists if and only if the expiry is in range; under the codec axiom, when the caller's claims are issuable (string sub and role, integer exp, nothing else, as main.py:119 passes), it decodes to those claims plus exp at every instant up to exp, and fails after it |
| Backend.NewRecord | jwt_backend/main.py:95-100 | the stored record keeps name, email and role, and its hash (not the plaintext) verifies the password under the hashing axiom |
| Backend.RegisterStep | jwt_backend/main.py:90-102 | a known email gives 400 "Email already registered" and the same table; a fresh one succeeds, adds exactly one record under it (the new record), and keeps every other record |
| Backend.RegisterKeepsRecords | jwt_backend/main.py:90-102 | register never overwrites or drops a record, and keeps every record under its own email |
| Backend.UserStore.constructor | jwt_backend/main.py:50 | the table starts empty |
| Backend.UserStore.Register | jwt_backend/main.py:90-102 | in place: a duplicate leaves the table as it was with a 400; otherwise exactly the new record is inserted; the keyed-by-email invariant is kept |
| Backend.RequestedRole | jwt_backend/main.py:109 | a requested role is always a scope word |
| Backend.RequestedRoleOfScopes | jwt_backend/main.py:106-109 | a client sending scope words requests the first of them, or no role when it sends none |
| Backend.LoginChecks | jwt_backend/main.py:107-116 | the one 400 if and only if the email is unknown or the password fails; 403 if and only if the credentials pass and the requested role is not the stored one; otherwise the claims sub = email, role = stored role |
| Backend.LoginExpiry | jwt_backend/main.py:118-119 | when it exists the expiry is in range and is now + ACCESS_TOKEN_EXPIRE_MINUTES minutes (fifteen minutes if that is 0); it is missing if and only if the timedelta or the datetime overflows |
| Backend.Login | jwt_backend/main.py:105-121 | 400, 403 and 500 each if and only if their condition holds, in that order; success if and only if all checks pass, and the bearer token then signs sub = login email, role = stored role, exp = the expiry |
| Backend.Lookup | jwt_backend/main.py:128-129 | dict.get: a value if and only if the key is present, and then that key's value |
| Backend.Protected | jwt_backend/main.py:124-132 | 401 if and only if the token does not decode; otherwise the decoded sub and role, each None when missing |
| Backend.LoginThenProtected | jwt_backend/main.py:111-132 | under the codec axiom, protected on a login's token reports exactly that email and stored role until exp, and 401 after it |
| Backend.RegisterThenLogin | jwt_backend/main.py:95-116 | under the hashing axiom, a fresh registration whose role is a scope word logs in with its password and that role as scope |
| Backend.UnsplittableRoleCannotLogIn | jwt_backend/main.py:109-116 | a user whose stored role is empty or holds whitespace never logs in; with valid credentials the answer is 403 |
| Server.Handle | jwt_backend/main.py:89-132 | login and protected leave users_db as it was; register changes it as RegisterStep does |
| Server.Serve | jwt_backend/main.py:89-132 | a run of calls gives exactly one response per call and leaves the table FinalTable describes |
| Server.ServeResponses | jwt_backend/main.py:89-132 | the i-th response of a run is the route's answer to the i-th call, served on the table the earlier calls left behind |
| Server.ServeKeepsRecords | jwt_backend/main.py:90-102 | over any run, records stay under their own email and none is overwritten or dropped |
| Server.ServeEmails | jwt_backend/main.py:90-102 | over any run, the final emails are the initial ones plus those of the register calls |
| Server.ServeKeepsRecordsAt | jwt_backend/main.py:92-93 | a record present in the table stays unchanged for the rest of any run |
| Server.ServeRecordsComeFromRegister | jwt_backend/main.py:92-100 | every record added during a run is the one the first register call for that email stored |
| Server.ServeRegisteredCanLogIn | jwt_backend/main.py:90-116 | under the hashing axiom, an account a run created logs in at its end with its first registration's password and role, when the role is a scope word and the expiry is in range |
| Server.AliceSession | jwt_backend/main.py:90-132 | with default settings: register alice, log in with scope "student", protected reports alice/student up to a day later and 401 after |
| Server.AliceRefused | jwt_backend/main.py:90-116 | wrong password and unknown email give the same 400; scope "admin" and no scope give 403; re-registering gives 400 and leaves the table as it was |

## Left out

- SECRET_KEY is assumed set in the environment at start-up; the key is always a string here. When it is not set, main.py:20-24 generates a key but only appends it to `.env`, after `load_dotenv` has already run at main.py:17. So main.py:26 reads None, and by that reading `jwt.encode` raises for every login that passes its checks. That start-up state is not modelled.
- Secret-key bootstrap (jwt_backend/main.py:17-28). Reading the environment, generating a random key and appending it to `.env` are I/O and randomness. The key, the algorithm and the expiry minutes are the `Settings` parameter. Parsing the minutes from a string is not modelled.
- bcrypt and JWT internals. They are the abstract `PasswordHasher` and `TokenCodec` under the stated hypotheses. Nothing is proved about hash collisions, and nothing about tokens the server did not sign. 
- jose's clock. jose reads the clock itself during `jwt.decode`; here the handler's `now` is given to `decode`.
- Sub-second time. `datetime.utcnow()` carries microseconds; the model counts whole seconds, as the `exp` claim does.
- FastAPI plumbing: the app object, CORS middleware, route decorators, `Depends`, the `/` route and `HTTPException` itself. The exceptions are `HttpError` failures. An uncaught `OverflowError` is the generic 500 answer.
- Welcome message text. `protected`'s f-string is modelled by the two values it interpolates (`Welcome`), not as a string.
- JSON values in decoded tokens other than strings, integers and null.
- Concurrency. The async handlers share an unsynchronised dictionary; the model serves calls one at a time.
- The Django REST service and the Django session-login app. Their views, permission class and serializer are not part of this model.
