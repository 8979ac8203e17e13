/**
 * The rules of the authentication handlers: the guards of login, the
 * password-reset token lifecycle (issue, roll back when the mail fails,
 * accept only a matching unexpired token, then clear it) and the logout
 * cookie.
 *
 * The user collection is a `UserStore` whose sequence is the database in its
 * natural order: `findOne` picks the first match. Hashing, the password
 * comparison, the clock and the outcome of sending the mail are inputs.
 */
module AuthController {
  import opened Common
  import opened Strings

  /** A user document, with the fields the handlers read or write. */
  class User {
    const email: string
    const role: string
    var name: string
    var password: string
    var resetToken: Option<string>
    var resetExpire: Option<int>

    constructor (name: string, email: string, password: string, role: string)
      ensures this.name == name && this.email == email && this.password == password && this.role == role
      ensures resetToken == None && resetExpire == None
    {
      this.name := name;
      this.email := email;
      this.password := password;
      this.role := role;
      resetToken := None;
      resetExpire := None;
    }
  }

  /** The mail `forgotPassword` asks the mail service to send. */
  datatype Mail = Mail(to: string, subject: string, message: string)

  /** A cookie as `res.cookie` sets it; `expires` is a time in milliseconds. */
  datatype Cookie = Cookie(name: string, value: string, expires: int, httpOnly: bool)

  const MissingCredentials := AppError("Please enter email & password.", Some(400))
  const InvalidCredentials := AppError("Invalid Email or Password.", Some(401))
  const NoUserWithEmail := AppError("No user found with this email.", Some(404))
  /** The status 500 is handed to `next` as a second argument, not to the
      error, so the error itself carries no status. */
  const EmailNotSent := AppError("Email is not sent", None)
  const InvalidResetToken := AppError("Password Reset token is invalid or has been expired.", Some(400))
  const RecoverySubject := "Jobbee-API Password recovery"

  /** The link mailed to the user: built from the request's own protocol and
      host, ending in the raw token. */
  function ResetUrl(protocol: string, host: string, token: string): (url: string)
    ensures |url| >= |token| && url[|url| - |token|..] == token
    ensures |url| >= |protocol| && url[..|protocol|] == protocol
  {
    var link := protocol + ("://" + host + "/api/v1/password/reset/" + token);
    assert link[..|protocol|] == protocol;
    link
  }

  /** The text before the link in the reset mail. */
  const ResetIntro := "Your password reset link is as follow : \n\n"

  /** The body of the reset mail: the link embedded between two fixed
      sentences. */
  function ResetMessage(url: string): (m: string)
    ensures OccursAt(m, url, |ResetIntro|)
  {
    var body := ResetIntro + url + "\n\n If you have not requested this, then please ignore that.";
    assert body[|ResetIntro|..|ResetIntro| + |url|] == url;
    body
  }

  /** The mailed message carries the raw token, at the end of the link. */
  lemma MailCarriesToken(protocol: string, host: string, token: string)
    ensures var url := ResetUrl(protocol, host, token);
      OccursAt(ResetMessage(url), token, |ResetIntro| + |url| - |token|)
  {
    var url := ResetUrl(protocol, host, token);
    var m := ResetMessage(url);
    var i := |ResetIntro| + |url| - |token|;
    assert m[|ResetIntro|..|ResetIntro| + |url|] == url;
    assert m[i..i + |token|] == url[|url| - |token|..];
  }

  /** The first user from index `from` on with this email, or -1. */
  function FindEmailFrom(users: seq<User>, email: string, from: nat): (r: int)
    requires from <= |users|
    ensures r == -1 || (from <= r < |users| && users[r].email == email)
    ensures forall j :: from <= j < (if r == -1 then |users| else r) ==> users[j].email != email
    decreases |users| - from
  {
    if from == |users| then -1
    else if users[from].email == email then from
    else FindEmailFrom(users, email, from + 1)
  }

  /** `User.findOne({email})`: the index of the first user with this email,
      or -1. */
  function FindByEmail(users: seq<User>, email: string): (r: int)
    ensures r == -1 || (0 <= r < |users| && users[r].email == email)
    ensures forall j :: 0 <= j < (if r == -1 then |users| else r) ==> users[j].email != email
  {
    FindEmailFrom(users, email, 0)
  }

  /** The user holds the hashed token `hashed` and it expires after `now`. */
  predicate TokenValid(u: User, hashed: string, now: int)
    reads u
  {
    u.resetToken == Some(hashed) && u.resetExpire.Some? && u.resetExpire.value > now
  }

  /** The first user from index `from` on whose token matches and has not
      expired, or -1. */
  function FindTokenFrom(users: seq<User>, hashed: string, now: int, from: nat): (r: int)
    requires from <= |users|
    reads set u | u in users
    ensures r == -1 || (from <= r < |users| && TokenValid(users[r], hashed, now))
    ensures forall j :: from <= j < (if r == -1 then |users| else r) ==> !TokenValid(users[j], hashed, now)
    decreases |users| - from
  {
    if from == |users| then -1
    else if TokenValid(users[from], hashed, now) then from
    else FindTokenFrom(users, hashed, now, from + 1)
  }

  /** `User.findOne({resetPasswordToken: hashed, resetPasswordExpire: {$gt:
      now}})`: the index of the first user with that token still valid, or
      -1. */
  function FindByToken(users: seq<User>, hashed: string, now: int): (r: int)
    reads set u | u in users
    ensures r == -1 || (0 <= r < |users| && TokenValid(users[r], hashed, now))
    ensures forall j :: 0 <= j < (if r == -1 then |users| else r) ==> !TokenValid(users[j], hashed, now)
  {
    FindTokenFrom(users, hashed, now, 0)
  }

  /** `logout`: the session cookie is overwritten with `none`, http-only and
      expiring at the current time, so it is stale from then on. */
  function Logout(now: int): (c: Cookie)
    ensures c.name == "token" && c.value == "none" && c.httpOnly
    ensures c.expires == now
  {
    Cookie("token", "none", now, true)
  }

  /** The user collection, in the database's natural order. */
  class UserStore {
    var users: seq<User>

    constructor ()
      ensures users == []
    {
      users := [];
    }

    /** `registerUser`: the created user is added to the collection. Schema
        validation (required fields, unique email) lives in the user schema,
        which is not modelled here. */
    method Register(name: string, email: string, password: string, role: string) returns (u: User)
      modifies this
      ensures fresh(u) && users == old(users) + [u]
      ensures u.name == name && u.email == email && u.password == password && u.role == role
      ensures u.resetToken == None && u.resetExpire == None
    {
      u := new User(name, email, password, role);
      users := users + [u];
    }

    /** `loginUser`: a missing email or password is a 400 before any lookup;
        an unknown email and a wrong password give the same 401 error; success
        yields the user with that email whose stored password matches. */
    function Login(email: Option<string>, password: Option<string>, comparePassword: (string, string) -> bool)
      : (r: Result<User>)
      reads this, set u | u in users
      ensures !Present(email) || !Present(password) ==> r == Err(MissingCredentials)
      ensures (Present(email) && Present(password) && forall k :: 0 <= k < |users| ==> users[k].email != email.value) ==>
                r == Err(InvalidCredentials)
      ensures Present(email) && Present(password) && r.Err? ==> r.error == InvalidCredentials
      ensures r.Ok? ==> Present(email) && Present(password) && r.value in users &&
                        r.value.email == email.value && comparePassword(password.value, r.value.password)
      ensures r.Ok? ==> r.value == users[FindByEmail(users, email.value)]
      ensures Present(email) && Present(password) && FindByEmail(users, email.value) >= 0 &&
              comparePassword(password.value, users[FindByEmail(users, email.value)].password) ==>
                r == Ok(users[FindByEmail(users, email.value)])
    {
      if !Present(email) || !Present(password) then Err(MissingCredentials)
      else
        var k := FindByEmail(users, email.value);
        if k < 0 then Err(InvalidCredentials)
        else if !comparePassword(password.value, users[k].password) then Err(InvalidCredentials)
        else Ok(users[k])
    }

    /** `forgotPassword`: 404 for an unknown email with no user touched;
        otherwise the hashed token and its expiry are stored, the reset link is
        mailed, and if the mail fails both fields are cleared again. The token
        and expiry are what the user model's token generator returns and
        stores. */
    method ForgotPassword(email: string, token: string, expire: int, hash: string -> string,
                          protocol: string, host: string, emailOk: bool)
      returns (r: Result<string>, mail: Option<Mail>)
      modifies if FindByEmail(users, email) >= 0 then {users[FindByEmail(users, email)]} else {}
      ensures FindByEmail(users, email) < 0 ==>
                r == Err(NoUserWithEmail) && mail == None &&
                forall k :: 0 <= k < |users| ==>
                  users[k].resetToken == old(users[k].resetToken) && users[k].resetExpire == old(users[k].resetExpire)
      ensures FindByEmail(users, email) >= 0 ==>
                var u := users[FindByEmail(users, email)];
                mail == Some(Mail(email, RecoverySubject, ResetMessage(ResetUrl(protocol, host, token)))) &&
                u.password == old(u.password) && u.name == old(u.name) &&
                (emailOk ==> r == Ok("Email sent successfully to " + email) &&
                             u.resetToken == Some(hash(token)) && u.resetExpire == Some(expire)) &&
                (!emailOk ==> r == Err(EmailNotSent) && u.resetToken == None && u.resetExpire == None)
      ensures FindByEmail(users, email) >= 0 && emailOk ==>
                forall t :: t < expire ==> FindByToken(users, hash(token), t) >= 0
    {
      var k := FindByEmail(users, email);
      if k < 0 {
        return Err(NoUserWithEmail), None;
      }
      var u := users[k];
      u.resetToken := Some(hash(token));
      u.resetExpire := Some(expire);
      mail := Some(Mail(u.email, RecoverySubject, ResetMessage(ResetUrl(protocol, host, token))));
      if emailOk {
        r := Ok("Email sent successfully to " + u.email);
        forall t | t < expire
          ensures FindByToken(users, hash(token), t) >= 0
        {
          assert TokenValid(users[k], hash(token), t);
        }
      } else {
        u.resetToken := None;
        u.resetExpire := None;
        r := Err(EmailNotSent);
      }
    }

    /** `resetPassword`: 400 unless some user holds the hash of the supplied
        token with an expiry strictly after `now`; the first such user gets the
        new password and both token fields are cleared, so that user can never
        match the token again. */
    method ResetPassword(token: string, newPassword: string, now: int, hash: string -> string)
      returns (r: Result<User>)
      modifies if FindByToken(users, hash(token), now) >= 0 then {users[FindByToken(users, hash(token), now)]} else {}
      ensures old(FindByToken(users, hash(token), now)) < 0 ==> r == Err(InvalidResetToken)
      ensures old(FindByToken(users, hash(token), now)) >= 0 ==>
                var u := users[old(FindByToken(users, hash(token), now))];
                r == Ok(u) && u.password == newPassword && u.name == old(u.name) &&
                u.resetToken == None && u.resetExpire == None
      ensures old(FindByToken(users, hash(token), now)) >= 0 ==>
                var u := users[old(FindByToken(users, hash(token), now))];
                (forall j :: 0 <= j < |users| && users[j] != u ==> old(users[j].resetToken) != Some(hash(token)))
                ==> forall t :: FindByToken(users, hash(token), t) == -1
    {
      var k := FindByToken(users, hash(token), now);
      if k < 0 {
        return Err(InvalidResetToken);
      }
      var u := users[k];
      u.password := newPassword;
      u.resetToken := None;
      u.resetExpire := None;
      r := Ok(u);
    }
  }

  /** A token that is valid at some time was valid at every earlier time, and
      a user whose token fields were cleared holds no valid token. */
  lemma TokenValidUntilExpiry(u: User, hashed: string, now: int, later: int)
    ensures TokenValid(u, hashed, later) && now <= later ==> TokenValid(u, hashed, now)
    ensures u.resetToken == None ==> !TokenValid(u, hashed, now)
    ensures u.resetExpire == Some(now) ==> !TokenValid(u, hashed, now)
  {
  }

  /** An expired token is refused even when its hash matches: a reset at
      `now` finds nobody when every holder's expiry is at most `now`. */
  lemma ExpiredTokenRefused(users: seq<User>, hashed: string, now: int)
    requires forall k :: 0 <= k < |users| && users[k].resetToken == Some(hashed) ==>
               users[k].resetExpire.Some? && users[k].resetExpire.value <= now
    ensures FindByToken(users, hashed, now) == -1
  {
  }
}
