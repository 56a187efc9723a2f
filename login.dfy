/**
  The login route of controllers/login.js: look the user up by username,
  check the password against the stored hash only if a user was found, and
  answer either one fixed 401 error or 200 with a signed token.

  The password check (bcrypt's `compare`) and the token signer
  (`jwt.sign`, a JSON Web Token of RFC 7519) are opaque: they are parameters
  of the model. So are the signing secret and the clock.
*/
module Login {
  import opened Wrappers

  type UserId = nat

  /** A stored user; `name` is optional. */
  datatype User = User(id: UserId, username: string, name: Option<string>, passwordHash: string)

  /** The payload the token is issued for: `{ username, id }`. */
  datatype Payload = Payload(username: string, id: UserId)

  /**
    The claims the signer encodes: the payload, the issue time `iat` and the
    expiry `exp` (section 4.1.4 of RFC 7519), both in seconds since the epoch.
  */
  datatype Claims = Claims(payload: Payload, iat: int, exp: int)

  datatype Body = Failure(error: string) | Session(token: string, username: string, name: Option<string>)

  datatype Reply = Reply(status: int, body: Body)

  /** The only failure message, for an unknown user and a wrong password alike. */
  const InvalidCredentials := "invalid username or password"

  /** The token lifetime passed as `expiresIn`: one week. */
  const ExpiresIn := 60 * 60 * 24 * 7

  /**
    `User.findOne({ username })`: the first stored user with that username, or
    none when no user has it.
  */
  function FindOne(users: seq<User>, username: string): (r: Option<User>)
    ensures r.None? <==> forall u :: u in users ==> u.username != username
    ensures r.Some? ==> exists k :: 0 <= k < |users| && users[k] == r.value && r.value.username == username
                          && forall j :: 0 <= j < k ==> users[j].username != username
    decreases |users|
  {
    if users == [] then None
    else if users[0].username == username then Some(users[0])
    else
      var r := FindOne(users[1..], username);
      assert forall u :: u in users ==> u == users[0] || u in users[1..];
      if r.Some? then
        ghost var k :| 0 <= k < |users[1..]| && users[1..][k] == r.value && r.value.username == username
                       && forall j :: 0 <= j < k ==> users[1..][j].username != username;
        assert users[k + 1] == r.value;
        r
      else r
  }

  /** The claims `jwt.sign` encodes for `user` at time `now`, given `expiresIn`. */
  function TokenClaims(user: User, now: int): (c: Claims)
    ensures c.payload == Payload(user.username, user.id)
    ensures c.iat == now && c.exp - c.iat == 604800
  {
    Claims(Payload(user.username, user.id), now, now + ExpiresIn)
  }

  /**
    POST `/`: the login decision. `compare(password, hash)` stands for
    `bcrypt.compare`, `sign(claims, secret)` for `jwt.sign`.
  */
  function LoginReply(users: seq<User>, username: string, password: string,
                      compare: (string, string) -> bool,
                      sign: (Claims, string) -> string,
                      secret: string, now: int): (r: Reply)
    ensures r.status == 200 || r.status == 401
    ensures r.status == 401 <==> r == Reply(401, Failure(InvalidCredentials))
    ensures r.status == 200 <==>
      FindOne(users, username).Some? && compare(password, FindOne(users, username).value.passwordHash)
    ensures r.status == 200 ==>
      var u := FindOne(users, username).value;
      r == Reply(200, Session(sign(TokenClaims(u, now), secret), u.username, u.name))
  {
    var user := FindOne(users, username);
    var passwordCorrect := if user.None? then false else compare(password, user.value.passwordHash);
    if !(user.Some? && passwordCorrect) then
      Reply(401, Failure(InvalidCredentials))
    else
      var u := user.value;
      Reply(200, Session(sign(TokenClaims(u, now), secret), u.username, u.name))
  }

  /** An unknown username is refused with the fixed message. */
  lemma UnknownUserRefused(users: seq<User>, username: string, password: string,
                           compare: (string, string) -> bool, sign: (Claims, string) -> string,
                           secret: string, now: int)
    requires forall u :: u in users ==> u.username != username
    ensures LoginReply(users, username, password, compare, sign, secret, now) == Reply(401, Failure(InvalidCredentials))
  {
  }

  /**
    A known username with a failing password check gets the very same reply as
    an unknown one, so the reply does not tell whether the user exists.
  */
  lemma WrongPasswordIndistinguishable(users: seq<User>, username: string, password: string,
                                       compare: (string, string) -> bool, sign: (Claims, string) -> string,
                                       secret: string, now: int, stranger: string)
    requires FindOne(users, username).Some?
    requires !compare(password, FindOne(users, username).value.passwordHash)
    requires forall u :: u in users ==> u.username != stranger
    ensures LoginReply(users, username, password, compare, sign, secret, now)
         == LoginReply(users, stranger, password, compare, sign, secret, now)
  {
  }

  /** Without a matching user the password check is not consulted at all. */
  lemma CompareUnusedWithoutUser(users: seq<User>, username: string, password: string,
                                 compare1: (string, string) -> bool, compare2: (string, string) -> bool,
                                 sign: (Claims, string) -> string, secret: string, now: int)
    requires forall u :: u in users ==> u.username != username
    ensures LoginReply(users, username, password, compare1, sign, secret, now)
         == LoginReply(users, username, password, compare2, sign, secret, now)
  {
  }

  /**
    With a matching user the password check is consulted only on the given
    password and that user's stored hash.
  */
  lemma CompareUsedOnFoundHashOnly(users: seq<User>, username: string, password: string,
                                   compare1: (string, string) -> bool, compare2: (string, string) -> bool,
                                   sign: (Claims, string) -> string, secret: string, now: int)
    requires FindOne(users, username).Some?
    requires compare1(password, FindOne(users, username).value.passwordHash)
          == compare2(password, FindOne(users, username).value.passwordHash)
    ensures LoginReply(users, username, password, compare1, sign, secret, now)
         == LoginReply(users, username, password, compare2, sign, secret, now)
  {
  }

  /**
    A successful login signs exactly `{ username, id }` of the first user with
    that username, expiring one week (604800 seconds) after it is issued, and
    answers that user's `username` and `name`.
  */
  lemma SuccessfulLogin(users: seq<User>, username: string, password: string,
                        compare: (string, string) -> bool, sign: (Claims, string) -> string,
                        secret: string, now: int) returns (k: nat)
    requires LoginReply(users, username, password, compare, sign, secret, now).status == 200
    ensures k < |users| && users[k].username == username
    ensures forall j :: 0 <= j < k ==> users[j].username != username
    ensures compare(password, users[k].passwordHash)
    ensures LoginReply(users, username, password, compare, sign, secret, now)
         == Reply(200, Session(sign(Claims(Payload(users[k].username, users[k].id), now, now + 604800), secret),
                               users[k].username, users[k].name))
  {
    var u := FindOne(users, username).value;
    k :| 0 <= k < |users| && users[k] == u && u.username == username
         && forall j :: 0 <= j < k ==> users[j].username != username;
  }
}
