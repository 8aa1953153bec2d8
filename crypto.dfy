/** The two foreign libraries the JWT backend calls: passlib's bcrypt context
    (hash_password / verify_password) and python-jose's jwt.encode / jwt.decode.
    Neither is modelled. Each one is a parameter of the model, a record of
    functions, and the single property the backend relies on is a predicate
    over that record, required by every lemma that uses it. */
module Crypto {
  import opened Wrappers

  /** A claim value. The backend only ever signs strings and the integer
      expiry; a decoded token may also carry a JSON null. */
  datatype JsonValue = JStr(s: string) | JInt(i: int) | JNull

  /** A JWT payload: a JSON object. */
  type Claims = map<string, JsonValue>

  /** passlib's CryptContext(schemes=["bcrypt"]). bcrypt draws a fresh salt on
      every call to hash; here that randomness is the `salt` argument. */
  datatype PasswordHasher = PasswordHasher(
    hash: (string, string) -> string,   // (plain, salt) -> stored hash
    verify: (string, string) -> bool)   // (plain, stored hash) -> matches

  /** The hashing axiom: a password always verifies against a hash of itself,
      whatever salt was drawn. */
  ghost predicate VerifiesOwnHash(h: PasswordHasher) {
    forall plain, salt :: h.verify(plain, h.hash(plain, salt))
  }

  /** hash_password: the stored hash of `plain` under the drawn salt. Under the
      hashing axiom the plaintext verifies against what is stored. */
  function HashPassword(h: PasswordHasher, plain: string, salt: string): (hashed: string)
    ensures VerifiesOwnHash(h) ==> VerifyPassword(h, plain, hashed)
  {
    h.hash(plain, salt)
  }

  /** verify_password. Under the hashing axiom it accepts every hash of the
      plaintext, whatever salt that hash was drawn with. */
  function VerifyPassword(h: PasswordHasher, plain: string, hashed: string): (ok: bool)
    ensures VerifiesOwnHash(h) ==> forall salt :: hashed == h.hash(plain, salt) ==> ok
  {
    h.verify(plain, hashed)
  }

  /** The signing configuration of jwt.encode / jwt.decode: SECRET_KEY and
      ALGORITHM. */
  datatype SigningKey = SigningKey(secret: string, algorithm: string)

  /** python-jose: encode signs claims into a compact token; decode checks the
      signature and the claims at the clock reading `now` (seconds) and yields
      the payload, or None where jose raises JWTError. */
  datatype TokenCodec = TokenCodec(
    encode: (Claims, SigningKey) -> string,
    decode: (string, SigningKey, int) -> Option<Claims>)

  /** jose's expiry rule with no leeway, on the payloads this backend signs: a
      payload without "exp" never expires, and an integer "exp" is accepted
      while now <= exp. Other kinds of "exp" never occur in those payloads. */
  predicate ExpiryAccepts(c: Claims, now: int) {
    "exp" !in c || (c["exp"].JInt? && now <= c["exp"].i)
  }

  /** The payloads this backend signs: at most "sub", "role" and "exp", the
      first two strings, the last an integer timestamp. */
  predicate IssuableClaims(c: Claims) {
    && c.Keys <= {"sub", "role", "exp"}
    && ("sub" in c ==> c["sub"].JStr?)
    && ("role" in c ==> c["role"].JStr?)
    && ("exp" in c ==> c["exp"].JInt?)
  }

  /** The codec axiom, for the payloads this backend signs (IssuableClaims): a
      token signed with key k decodes under k to exactly the signed payload
      while it is unexpired, and fails once it has expired. jose rejects some
      other payloads (an "aud" claim when no audience is given), so the axiom
      claims nothing about them. */
  ghost predicate SoundCodec(codec: TokenCodec) {
    forall c, k, now {:trigger codec.decode(codec.encode(c, k), k, now)} ::
      IssuableClaims(c) ==>
        codec.decode(codec.encode(c, k), k, now) == if ExpiryAccepts(c, now) then Some(c) else None
  }

  /** The hashing axiom can be met: it is not a contradictory assumption. */
  lemma HashingAxiomSatisfiable()
    ensures exists h :: VerifiesOwnHash(h)
  {
    var h := PasswordHasher((plain, salt) => salt + "$" + plain,
                            (plain, hashed) => |plain| <= |hashed| && hashed[|hashed| - |plain|..] == plain);
    forall plain, salt ensures h.verify(plain, h.hash(plain, salt)) {
      var hashed := salt + "$" + plain;
      assert hashed[|hashed| - |plain|..] == plain;
    }
    assert VerifiesOwnHash(h);
  }

  /* A witness for the codec axiom. Each claim is written behind a tag, with
     lengths and magnitudes in unary, so no two issuable payloads share a
     token; decoding parses the three claims back and applies the expiry
     rule. */

  function Unary(n: nat): string
    decreases n
  {
    if n == 0 then "0" else "1" + Unary(n - 1)
  }

  function ParseUnary(t: string): (nat, string)
    decreases |t|
  {
    if t == [] then (0, [])
    else if t[0] != '1' then (0, t[1..])
    else var (n, rest) := ParseUnary(t[1..]); (n + 1, rest)
  }

  lemma {:induction false} ParseUnaryOf(n: nat, rest: string)
    ensures ParseUnary(Unary(n) + rest) == (n, rest)
    decreases n
  {
    if n == 0 {
      assert (Unary(0) + rest)[1..] == rest;
    } else {
      assert Unary(n) + rest == "1" + (Unary(n - 1) + rest);
      assert (Unary(n) + rest)[1..] == Unary(n - 1) + rest;
      ParseUnaryOf(n - 1, rest);
    }
  }

  function TextClaim(c: Claims, key: string): Option<string> {
    if key in c && c[key].JStr? then Some(c[key].s) else None
  }

  function IntClaim(c: Claims, key: string): Option<int> {
    if key in c && c[key].JInt? then Some(c[key].i) else None
  }

  function EncodeText(o: Option<string>): string {
    match o
    case None => "N"
    case Some(s) => "S" + Unary(|s|) + s
  }

  function ParseText(t: string): (Option<string>, string) {
    if t == [] then (None, [])
    else if t[0] != 'S' then (None, t[1..])
    else
      var (n, rest) := ParseUnary(t[1..]);
      if n <= |rest| then (Some(rest[..n]), rest[n..]) else (None, [])
  }

  lemma {:induction false} ParseTextOf(o: Option<string>, rest: string)
    ensures ParseText(EncodeText(o) + rest) == (o, rest)
  {
    var t := EncodeText(o) + rest;
    if o.None? {
      assert t[0] == 'N' && t[1..] == rest;
    } else {
      var s := o.value;
      var body := s + rest;
      assert t == "S" + (Unary(|s|) + body);
      assert t[0] == 'S' && t[1..] == Unary(|s|) + body;
      ParseUnaryOf(|s|, body);
      assert body[..|s|] == s && body[|s|..] == rest;
    }
  }

  function EncodeInt(o: Option<int>): string {
    match o
    case None => "N"
    case Some(i) => if i >= 0 then "P" + Unary(i) else "M" + Unary(-i)
  }

  function ParseInt(t: string): Option<int> {
    if t == [] then None
    else if t[0] == 'P' then Some(ParseUnary(t[1..]).0)
    else if t[0] == 'M' then var n: int := ParseUnary(t[1..]).0; Some(-n)
    else None
  }

  lemma {:induction false} ParseIntOf(o: Option<int>)
    ensures ParseInt(EncodeInt(o)) == o
  {
    match o
    case None =>
    case Some(i) =>
      var n: nat := if i >= 0 then i else -i;
      ParseUnaryOf(n, []);
      assert Unary(n) + [] == Unary(n);
      assert EncodeInt(o)[1..] == Unary(n);
  }

  function Assemble(sub: Option<string>, role: Option<string>, exp: Option<int>): Claims {
    var withSub := if sub.Some? then map["sub" := JStr(sub.value)] else map[];
    var withRole := if role.Some? then withSub["role" := JStr(role.value)] else withSub;
    if exp.Some? then withRole["exp" := JInt(exp.value)] else withRole
  }

  function WitnessEncode(c: Claims): string {
    EncodeText(TextClaim(c, "sub")) + EncodeText(TextClaim(c, "role")) + EncodeInt(IntClaim(c, "exp"))
  }

  function WitnessDecode(t: string, now: int): Option<Claims> {
    var (sub, afterSub) := ParseText(t);
    var (role, afterRole) := ParseText(afterSub);
    var c := Assemble(sub, role, ParseInt(afterRole));
    if ExpiryAccepts(c, now) then Some(c) else None
  }

  /** The witness codec's round trip on the payloads this backend signs. */
  lemma {:induction false} WitnessRoundTrip(c: Claims, now: int)
    requires IssuableClaims(c)
    ensures WitnessDecode(WitnessEncode(c), now) == if ExpiryAccepts(c, now) then Some(c) else None
  {
    var sub, role, exp := TextClaim(c, "sub"), TextClaim(c, "role"), IntClaim(c, "exp");
    var t := EncodeText(sub) + EncodeText(role) + EncodeInt(exp);
    assert t == EncodeText(sub) + (EncodeText(role) + EncodeInt(exp));
    ParseTextOf(sub, EncodeText(role) + EncodeInt(exp));
    ParseTextOf(role, EncodeInt(exp));
    ParseIntOf(exp);
    var a := Assemble(sub, role, exp);
    assert a.Keys == c.Keys;
    assert a == c;
  }

  /** The codec axiom can be met: it is not a contradictory assumption. */
  lemma CodecAxiomSatisfiable()
    ensures exists codec :: SoundCodec(codec)
  {
    var codec := TokenCodec((c, k) => WitnessEncode(c), (t, k, now) => WitnessDecode(t, now));
    forall c, k, now | IssuableClaims(c)
      ensures codec.decode(codec.encode(c, k), k, now) == if ExpiryAccepts(c, now) then Some(c) else None
    {
      WitnessRoundTrip(c, now);
    }
    assert SoundCodec(codec);
  }
}
