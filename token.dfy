/**
 * Tokens: the percent-encoded JSON text of `{sessionId, userId}`, and the
 * checks that compare a decoded token against the users' active sessions.
 */
module Token {
  import opened Wrappers
  import opened DataStore
  import Json
  import UriComponent

  /** Why `decodeToken` throws: a malformed percent-escape, or text `JSON.parse` rejects. */
  datatype DecodeError = MalformedUri | MalformedJson(reason: Json.JsonError)

  /** Why `checkToken` throws. */
  datatype TokenError = EmptyToken | Undecodable(reason: DecodeError) | InvalidToken

  const MinSessionId: int := 10000000
  const MaxSessionId: int := 99999999

  /** `generateToken`: `encodeURIComponent(JSON.stringify({sessionId, userId}))`. */
  function GenerateToken(userId: int, sessionId: int): (token: string)
    ensures forall i :: 0 <= i < |token| ==> UriComponent.IsUnescaped(token[i]) || token[i] == '%'
    ensures UriComponent.IsEncoded(token)
    ensures '{' !in token && '"' !in token && ':' !in token && ',' !in token && '}' !in token
  {
    var token := UriComponent.EncodeURIComponent(Json.StringifyToken(sessionId, userId));
    UriComponent.EncodedChars(token);
    UriComponent.EncodedHasNoJsonPunctuation(token);
    token
  }

  /**
   * `decodeToken`: `JSON.parse(decodeURIComponent(token))`, read as a token
   * object. The empty string is refused as JSON. The model reads only a
   * top-level object, so a token that holds no brace, raw or escaped, is
   * refused too; `JSON.parse` itself would accept a scalar such as `5`.
   */
  function DecodeToken(token: string): (r: Result<TokenObject, DecodeError>)
    ensures token == [] ==> r == Err(MalformedJson(Json.SyntaxError))
    ensures '%' !in token && '{' !in token ==> r.Err?
  {
    match UriComponent.DecodeURIComponent(token)
    case Err(_) => Err(MalformedUri)
    case Ok(text) =>
      match Json.ParseObject(text)
      case Err(e) => Err(MalformedJson(e))
      case Ok(members) =>
        Ok(TokenObject(Json.NumberProperty(members, "sessionId"), Json.NumberProperty(members, "userId")))
  }

  /** Decoding a generated token gives back the session and the user it was made for. */
  lemma DecodeGenerateToken(userId: int, sessionId: int)
    ensures DecodeToken(GenerateToken(userId, sessionId)) == Ok(TokenObject(Some(sessionId), Some(userId)))
  {
    var text := Json.StringifyToken(sessionId, userId);
    var members := [("sessionId", Json.Number(sessionId)), ("userId", Json.Number(userId))];
    assert UriComponent.DecodeURIComponent(GenerateToken(userId, sessionId)) == Ok(text) by {
      UriComponent.DecodeEncode(text);
    }
    assert Json.ParseObject(text) == Ok(members) by {
      Json.ParseStringifiedToken(sessionId, userId);
    }
    Json.TokenProperties(sessionId, userId);
  }

  /** Two different (user, session) pairs never share a token. */
  lemma GenerateTokenInjective(u1: int, s1: int, u2: int, s2: int)
    requires GenerateToken(u1, s1) == GenerateToken(u2, s2)
    ensures u1 == u2 && s1 == s2
  {
    DecodeGenerateToken(u1, s1);
    DecodeGenerateToken(u2, s2);
  }

  /** The user has the token's id and lists the token's session among its active ones. */
  predicate HoldsSession(user: User, token: TokenObject) {
    && token.userId == Some(user.userId)
    && token.sessionId.Some?
    && token.sessionId.value in user.activeSessionIds
  }

  /** What `validateToken` decides: some user holds the token's session. */
  predicate IsActiveToken(users: seq<User>, token: TokenObject) {
    exists i :: 0 <= i < |users| && HoldsSession(users[i], token)
  }

  /** `validateToken`: a search through the users that stops at the first one holding the session. */
  method ValidateToken(store: Store, token: TokenObject) returns (valid: bool)
    requires store.Valid()
    modifies store`cache
    ensures store.Valid() && store.file == old(store.file) && store.View() == old(store.View())
    ensures valid <==> IsActiveToken(store.View().users, token)
  {
    var data := store.GetData();
    var i := 0;
    while i < |data.users|
      invariant 0 <= i <= |data.users|
      invariant forall j :: 0 <= j < i ==> !HoldsSession(data.users[j], token)
    {
      var user := data.users[i];
      if token.userId == Some(user.userId) && token.sessionId.Some? && token.sessionId.value in user.activeSessionIds {
        return true;
      }
      i := i + 1;
    }
    return false;
  }

  /**
   * `checkToken`: the empty token is refused before anything is decoded;
   * otherwise the token must decode and validate.
   */
  method CheckToken(store: Store, token: string) returns (r: Result<(), TokenError>)
    requires store.Valid()
    modifies store`cache
    ensures store.Valid() && store.file == old(store.file) && store.View() == old(store.View())
    ensures token == "" ==> r == Err(EmptyToken)
    ensures token != "" && DecodeToken(token).Err? ==> r == Err(Undecodable(DecodeToken(token).error))
    ensures token != "" && DecodeToken(token).Ok? ==>
              (r.Ok? <==> IsActiveToken(store.View().users, DecodeToken(token).value))
              && (r.Err? ==> r.error == InvalidToken)
  {
    if token == "" {
      return Err(EmptyToken);
    }
    var decoded := DecodeToken(token);
    if decoded.Err? {
      return Err(Undecodable(decoded.error));
    }
    var valid := ValidateToken(store, decoded.value);
    if !valid {
      return Err(InvalidToken);
    }
    return Ok(());
  }

  /** `users.find(...)` in `findUserWithToken`: the first user holding the token's session. */
  method FirstUserHoldingSession(users: seq<User>, t: TokenObject) returns (found: Option<User>)
    ensures found.None? <==> !IsActiveToken(users, t)
    ensures found.Some? ==> exists i :: 0 <= i < |users| && users[i] == found.value && HoldsSession(users[i], t)
                                        && forall j :: 0 <= j < i ==> !HoldsSession(users[j], t)
  {
    var i := 0;
    while i < |users|
      invariant 0 <= i <= |users|
      invariant forall j :: 0 <= j < i ==> !HoldsSession(users[j], t)
    {
      var user := users[i];
      if t.sessionId.Some? && t.sessionId.value in user.activeSessionIds && t.userId == Some(user.userId) {
        return Some(user);
      }
      i := i + 1;
    }
    return None;
  }

  /**
   * `findUserWithToken`: decodes the token, then looks for the first user
   * holding its session; `None` is the source's `undefined`.
   */
  method FindUserWithToken(store: Store, token: string) returns (r: Result<Option<User>, DecodeError>)
    requires store.Valid()
    modifies store`cache
    ensures store.Valid() && store.file == old(store.file) && store.View() == old(store.View())
    ensures DecodeToken(token).Err? ==> r == Err(DecodeToken(token).error)
    ensures DecodeToken(token).Ok? ==> r.Ok?
    ensures r.Ok? ==> (r.value.None? <==> !IsActiveToken(store.View().users, DecodeToken(token).value))
    ensures r.Ok? && r.value.Some? ==> HoldsSession(r.value.value, DecodeToken(token).value)
                                       && r.value.value in store.View().users
  {
    var decoded := DecodeToken(token);
    if decoded.Err? {
      return Err(decoded.error);
    }
    var data := store.GetData();
    var found := FirstUserHoldingSession(data.users, decoded.value);
    return Ok(found);
  }

  /** `generateSessionId`: `Math.floor(10000000 + random * 90000000)` for a `Math.random()` value. */
  function GenerateSessionId(random: real): (id: int)
    requires 0.0 <= random < 1.0
    ensures MinSessionId <= id <= MaxSessionId
  {
    (10000000.0 + random * 90000000.0).Floor
  }

  /** A session id always has exactly eight decimal digits. */
  lemma SessionIdHasEightDigits(id: int)
    requires MinSessionId <= id <= MaxSessionId
    ensures |Json.NatToDecimal(id)| == 8
  {
    var n := id;
    assert |Json.NatToDecimal(n / 10000000)| == 1;
    assert |Json.NatToDecimal(n / 1000000)| == 2;
    assert |Json.NatToDecimal(n / 100000)| == 3;
    assert |Json.NatToDecimal(n / 10000)| == 4;
    assert |Json.NatToDecimal(n / 1000)| == 5;
    assert |Json.NatToDecimal(n / 100)| == 6;
    assert |Json.NatToDecimal(n / 10)| == 7;
  }
}
