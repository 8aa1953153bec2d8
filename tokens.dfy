/** create_access_token (jwt_backend/main.py:74-79): copy the claims, add an
    expiry, sign. Times are whole seconds since the Unix epoch (UTC);
    timedelta(minutes=m) is m * 60 seconds. */
module Tokens {
  import opened Wrappers
  import opened Crypto

  /** timedelta(minutes=15), the lifetime used when no delta is given. */
  const DEFAULT_EXPIRES_SECONDS: int := 15 * 60

  /** datetime.min (0001-01-01 00:00:00) and the last whole second of
      datetime.max (9999-12-31 23:59:59), in Unix seconds. */
  const DATETIME_MIN_SECONDS: int := -62135596800
  const DATETIME_MAX_SECONDS: int := 253402300799

  /** The largest number of days a timedelta may hold, either sign. */
  const TIMEDELTA_MAX_DAYS: int := 999999999

  /** A time a Python datetime can hold; datetime arithmetic that leaves this
      range raises OverflowError. */
  predicate InDatetimeRange(t: int) {
    DATETIME_MIN_SECONDS <= t <= DATETIME_MAX_SECONDS
  }

  /** A span a timedelta can hold; constructing a longer one raises
      OverflowError. Python normalises to whole days rounded down, which is
      Dafny's `/` for a positive divisor. */
  predicate TimedeltaInRange(seconds: int) {
    -TIMEDELTA_MAX_DAYS <= seconds / 86400 <= TIMEDELTA_MAX_DAYS
  }

  /** `expires_delta or timedelta(minutes=15)`: Python treats both a missing
      delta and a zero timedelta as false, so either one falls back to fifteen
      minutes; any other delta, negative ones included, is used as given. */
  function EffectiveDelta(expiresDelta: Option<int>): (d: int)
    ensures d != 0
    ensures expiresDelta.Some? && expiresDelta.value != 0 ==> d == expiresDelta.value
    ensures expiresDelta == None || expiresDelta == Some(0) ==> d == DEFAULT_EXPIRES_SECONDS
  {
    match expiresDelta
    case Some(delta) => if delta != 0 then delta else DEFAULT_EXPIRES_SECONDS
    case None => DEFAULT_EXPIRES_SECONDS
  }

  /** The payload create_access_token signs: the caller's claims (a copy, so
      the caller's own dictionary is untouched) with "exp" set; None where
      computing the expiry raises OverflowError. */
  function AccessTokenClaims(data: Claims, expiresDelta: Option<int>, now: int): (c: Option<Claims>)
    ensures c.Some? <==> InDatetimeRange(now + EffectiveDelta(expiresDelta))
    ensures c.Some? ==>
              && c.value.Keys == data.Keys + {"exp"}
              && (forall k :: k in data && k != "exp" ==> c.value[k] == data[k])
              && c.value["exp"] == JInt(now + EffectiveDelta(expiresDelta))
    ensures c.Some? && expiresDelta == None ==> c.value["exp"] == JInt(now + DEFAULT_EXPIRES_SECONDS)
  {
    var exp := now + EffectiveDelta(expiresDelta);
    if InDatetimeRange(exp) then Some(data["exp" := JInt(exp)]) else None
  }

  /** create_access_token: the signed token, or None for OverflowError. Under
      the codec axiom the token decodes with the same key to the caller's
      claims plus the expiry at every instant up to and including the
      expiry, and fails at every later instant. */
  function CreateAccessToken(codec: TokenCodec, key: SigningKey, data: Claims,
                             expiresDelta: Option<int>, now: int): (token: Option<string>)
    ensures token.Some? <==> InDatetimeRange(now + EffectiveDelta(expiresDelta))
    ensures SoundCodec(codec) && IssuableClaims(data) && token.Some? ==>
              var exp := now + EffectiveDelta(expiresDelta);
              forall later :: codec.decode(token.value, key, later)
                              == if later <= exp then Some(data["exp" := JInt(exp)]) else None
  {
    match AccessTokenClaims(data, expiresDelta, now)
    case None => None
    case Some(c) =>
      assert IssuableClaims(data) ==> IssuableClaims(c);
      Some(codec.encode(c, key))
  }
}
