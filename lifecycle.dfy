/** The account lifecycle as pure transitions over the users collection:
    one function per route of the auth router, giving the response, the
    collection afterwards and the mail the route asks to send.  The
    route handlers in AuthRoutes are proved to compute exactly these;
    the lemmas below state what the transitions guarantee. */
module Lifecycle {
  import opened Wrappers
  import opened Bytes
  import opened Hex
  import opened Credentials
  import Session
  import opened UserModel

  /** express-validator's isLength({ min: 6 }) on passwords. */
  const MinPasswordLength := 6

  const VerifySubject := "Verify your email for MERN Auth System"
  const ResetSubject := "Password Reset Request for MERN Auth System"

  /** The environment the router reads: BASE_URL, EMAIL_USER and
      JWT_SECRET, each None when the variable is unset. */
  datatype Config = Config(baseUrl: Option<string>, emailUser: Option<string>, jwtSecret: Option<string>)

  /** How a variable reads inside a template literal: an unset one is
      the text "undefined". */
  function Interpolate(v: Option<string>): string {
    match v
    case None => "undefined"
    case Some(s) => s
  }

  /** A request to the mail transport: from (EMAIL_USER, possibly unset),
      to, subject and the link the HTML body carries. */
  datatype Mail = Mail(from: Option<string>, to: string, subject: string, link: string)

  /** The length express-validator's isLength measures: characters, not
      counting the variation selectors U+FE0E and U+FE0F. */
  function ValidatorLength(s: string): (n: nat)
    ensures n <= |s|
    ensures (forall i :: 0 <= i < |s| ==> s[i] != '\U{FE0E}' && s[i] != '\U{FE0F}') ==> n == |s|
  {
    if s == [] then 0
    else (if s[0] == '\U{FE0E}' || s[0] == '\U{FE0F}' then 0 else 1) + ValidatorLength(s[1..])
  }

  /** The measured length is the number of characters less the number of
      variation selectors among them. */
  lemma {:induction false} ValidatorLengthCount(s: string)
    ensures ValidatorLength(s) == |s| - multiset(s)['\U{FE0E}'] - multiset(s)['\U{FE0F}']
  {
    if s != [] {
      ValidatorLengthCount(s[1..]);
      assert s == [s[0]] + s[1..];
      assert multiset(s) == multiset([s[0]]) + multiset(s[1..]);
    }
  }

  /** isLength({ min: 6 }). */
  predicate LongEnough(password: string) {
    ValidatorLength(password) >= MinPasswordLength
  }

  datatype Response =
    | InvalidInput              // the validator rejected the body
    | UserAlreadyExists
    | Registered
    | ServerError               // anything thrown inside the handler's try
    | InvalidVerificationToken
    | EmailVerified
    | InvalidCredentials
    | VerifyEmailFirst
    | LoggedIn(token: Session.Token)
    | UserNotFound
    | ResetLinkSent
    | InvalidResetToken
    | PasswordResetDone

  /** The responses of a request that did what it was asked. */
  predicate Succeeded(r: Response) {
    r.Registered? || r.EmailVerified? || r.LoggedIn? || r.ResetLinkSent? || r.PasswordResetDone?
  }

  /** The HTTP status each response is sent with: 2xx exactly on success. */
  function Status(r: Response): (n: nat)
    ensures 200 <= n <= 500
    ensures n < 300 <==> Succeeded(r)
  {
    match r
    case Registered => 201
    case EmailVerified | LoggedIn(_) | ResetLinkSent | PasswordResetDone => 200
    case UserNotFound => 404
    case ServerError => 500
    case _ => 400
  }

  /** The text each response carries: its `msg`, or, for a validation
      failure and for a login, the key of the response body (`errors`,
      `token`), whose value is not modelled as text. */
  function Message(r: Response): string {
    match r
    case InvalidInput => "errors"
    case UserAlreadyExists => "User already exists"
    case Registered => "User registered. Please check your email for verification."
    case ServerError => "Server error"
    case InvalidVerificationToken => "Invalid or expired verification token"
    case EmailVerified => "Email verified successfully! You can now log in."
    case InvalidCredentials => "Invalid Credentials"
    case VerifyEmailFirst => "Please verify your email first."
    case LoggedIn(_) => "token"
    case UserNotFound => "User not found"
    case ResetLinkSent => "Password reset link sent to your email."
    case InvalidResetToken => "Invalid or expired reset token"
    case PasswordResetDone => "Password reset successfully!"
  }

  datatype Outcome = Outcome(response: Response, accounts: seq<Account>, mail: Option<Mail>)

  function VerificationMail(cfg: Config, email: string, token: string): Mail {
    Mail(cfg.emailUser, email, VerifySubject, Interpolate(cfg.baseUrl) + "/verify/" + token)
  }

  function ResetMail(cfg: Config, email: string, token: string): Mail {
    Mail(cfg.emailUser, email, ResetSubject, Interpolate(cfg.baseUrl) + "/reset-password/" + token)
  }

  /** With BASE_URL unset, the template literals put the text "undefined"
      where the base URL goes; the token still ends each link. */
  lemma UnsetBaseUrlLinks(cfg: Config, email: string, token: string)
    requires cfg.baseUrl.None?
    ensures VerificationMail(cfg, email, token).link == "undefined/verify/" + token
    ensures ResetMail(cfg, email, token).link == "undefined/reset-password/" + token
    ensures VerificationMail(cfg, email, token).from == ResetMail(cfg, email, token).from == cfg.emailUser
  {
  }

  /** The record POST /register saves for a new user. */
  function PendingAccount(id: Id, username: string, email: string, password: string,
                          saltRandom: seq<byte>, token: string): Account
  {
    Account(id, username, email, Hash(password, GenSalt(saltRandom)), false, Some(token), None, None)
  }

  /** POST /register.  `id` is the id the new document gets, the random
      inputs stand for the salt and the token bytes, and `mailDelivered`
      is whether sendMail resolved. */
  function Register(s: seq<Account>, id: Id, cfg: Config, username: string, email: string,
                    password: string, saltRandom: seq<byte>, tokenRandom: seq<byte>,
                    mailDelivered: bool): (r: Outcome)
    requires |tokenRandom| == TokenBytes
    ensures r.mail.None? ==> r.accounts == s
    ensures r.mail.Some? ==> |r.accounts| == |s| + 1 && r.mail.value.to == email
    ensures r.response == Registered ==> r.mail.Some?
  {
    if username == "" || !LongEnough(password) then Outcome(InvalidInput, s, None)
    else if FindFirst(s, ByEmail(email)).Some? then Outcome(UserAlreadyExists, s, None)
    else
      var token := RandomToken(tokenRandom);
      match Save(s, PendingAccount(id, username, email, password, saltRandom, token), true)
      case Err(_) => Outcome(ServerError, s, None)
      case Ok(s') =>
        Outcome(if mailDelivered then Registered else ServerError, s', Some(VerificationMail(cfg, email, token)))
  }

  /** GET /verify/:token. */
  function VerifyEmail(s: seq<Account>, token: string): (r: Outcome)
    ensures |r.accounts| == |s| && r.mail.None?
    ensures r.response != EmailVerified ==> r.accounts == s
  {
    match FindFirst(s, ByVerificationToken(token))
    case None => Outcome(InvalidVerificationToken, s, None)
    case Some(i) =>
      match Save(s, s[i].(isVerified := true, verificationToken := None), false)
      case Err(_) => Outcome(ServerError, s, None)
      case Ok(s') => Outcome(EmailVerified, s', None)
  }

  /** POST /login, at wall-clock time `now` (ms).  It writes nothing. */
  function Login(s: seq<Account>, cfg: Config, email: string, password: string, now: nat): (r: Response)
    ensures r.LoggedIn? ==>
      exists i :: 0 <= i < |s| && s[i].email == email && s[i].isVerified && Compare(password, s[i].password)
                  && r.token.user == Session.Claims(s[i].id, s[i].username)
  {
    match FindFirst(s, ByEmail(email))
    case None => InvalidCredentials
    case Some(i) =>
      if !s[i].isVerified then VerifyEmailFirst
      else if !Compare(password, s[i].password) then InvalidCredentials
      else
        match Session.Sign(Session.Claims(s[i].id, s[i].username), cfg.jwtSecret, now)
        case None => ServerError
        case Some(t) => LoggedIn(t)
  }

  /** POST /forgot-password, at time `now` (ms). */
  function ForgotPassword(s: seq<Account>, cfg: Config, email: string, tokenRandom: seq<byte>,
                          now: nat, mailDelivered: bool): (r: Outcome)
    requires |tokenRandom| == TokenBytes
    ensures |r.accounts| == |s|
    ensures r.mail.None? ==> r.accounts == s
    ensures r.mail.Some? ==> r.mail.value.to == email
  {
    match FindFirst(s, ByEmail(email))
    case None => Outcome(UserNotFound, s, None)
    case Some(i) =>
      var token := RandomToken(tokenRandom);
      match Save(s, s[i].(resetPasswordToken := Some(token), resetPasswordExpire := Some(now + ResetWindow)), false)
      case Err(_) => Outcome(ServerError, s, None)
      case Ok(s') =>
        Outcome(if mailDelivered then ResetLinkSent else ServerError, s', Some(ResetMail(cfg, email, token)))
  }

  /** PUT /reset-password/:token, at time `now` (ms). */
  function ResetPassword(s: seq<Account>, token: string, password: string,
                         saltRandom: seq<byte>, now: nat): (r: Outcome)
    ensures |r.accounts| == |s| && r.mail.None?
    ensures r.response != PasswordResetDone ==> r.accounts == s
  {
    if !LongEnough(password) then Outcome(InvalidInput, s, None)
    else
      match FindFirst(s, ByResetToken(token, now))
      case None => Outcome(InvalidResetToken, s, None)
      case Some(i) =>
        var a := s[i].(password := Hash(password, GenSalt(saltRandom)),
                       resetPasswordToken := None, resetPasswordExpire := None);
        match Save(s, a, false)
        case Err(_) => Outcome(ServerError, s, None)
        case Ok(s') => Outcome(PasswordResetDone, s', None)
  }

  // ---------------------------------------------------------------------
  // Invariants every transition keeps

  /** The lifecycle state of one record: the password is a digest, a
      verification token is held exactly while the account is unverified,
      and the reset token and its expiry come and go together. */
  ghost predicate Consistent(a: Account) {
    && a.password.Digest?
    && (a.verificationToken.Some? <==> !a.isVerified)
    && (a.resetPasswordToken.Some? <==> a.resetPasswordExpire.Some?)
  }

  ghost predicate Invariant(s: seq<Account>) {
    Wellformed(s) && forall i :: 0 <= i < |s| ==> Consistent(s[i])
  }

  lemma RegisterKeepsInvariant(s: seq<Account>, id: Id, cfg: Config, username: string, email: string,
                               password: string, saltRandom: seq<byte>, tokenRandom: seq<byte>,
                               mailDelivered: bool)
    requires |tokenRandom| == TokenBytes && Invariant(s)
    ensures Invariant(Register(s, id, cfg, username, email, password, saltRandom, tokenRandom, mailDelivered).accounts)
  {
    if username != "" && LongEnough(password) && FindFirst(s, ByEmail(email)).None? {
      var a := PendingAccount(id, username, email, password, saltRandom, RandomToken(tokenRandom));
      if Save(s, a, true).Ok? {
        SavePreservesWellformed(s, a, true);
      }
    }
  }

  lemma VerifyEmailKeepsInvariant(s: seq<Account>, token: string)
    requires Invariant(s)
    ensures Invariant(VerifyEmail(s, token).accounts)
  {
    var r := FindFirst(s, ByVerificationToken(token));
    if r.Some? {
      var a := s[r.value].(isVerified := true, verificationToken := None);
      if Save(s, a, false).Ok? {
        SavePreservesWellformed(s, a, false);
      }
    }
  }

  lemma ForgotPasswordKeepsInvariant(s: seq<Account>, cfg: Config, email: string, tokenRandom: seq<byte>,
                                     now: nat, mailDelivered: bool)
    requires |tokenRandom| == TokenBytes && Invariant(s)
    ensures Invariant(ForgotPassword(s, cfg, email, tokenRandom, now, mailDelivered).accounts)
  {
    var r := FindFirst(s, ByEmail(email));
    if r.Some? {
      var a := s[r.value].(resetPasswordToken := Some(RandomToken(tokenRandom)),
                           resetPasswordExpire := Some(now + ResetWindow));
      if Save(s, a, false).Ok? {
        SavePreservesWellformed(s, a, false);
      }
    }
  }

  lemma ResetPasswordKeepsInvariant(s: seq<Account>, token: string, password: string,
                                    saltRandom: seq<byte>, now: nat)
    requires Invariant(s)
    ensures Invariant(ResetPassword(s, token, password, saltRandom, now).accounts)
  {
    var r := FindFirst(s, ByResetToken(token, now));
    if LongEnough(password) && r.Some? {
      var a := s[r.value].(password := Hash(password, GenSalt(saltRandom)),
                           resetPasswordToken := None, resetPasswordExpire := None);
      if Save(s, a, false).Ok? {
        SavePreservesWellformed(s, a, false);
      }
    }
  }

  // ---------------------------------------------------------------------
  // Register

  lemma RegisterRejectsInvalidInput(s: seq<Account>, id: Id, cfg: Config, username: string, email: string,
                                    password: string, saltRandom: seq<byte>, tokenRandom: seq<byte>,
                                    mailDelivered: bool)
    requires |tokenRandom| == TokenBytes
    requires username == "" || !LongEnough(password)
    ensures Register(s, id, cfg, username, email, password, saltRandom, tokenRandom, mailDelivered)
            == Outcome(InvalidInput, s, None)
  {
  }

  /** isLength skips variation selectors: five letters and U+FE0F are
      too short a password. */
  lemma VariationSelectorNotCounted(s: seq<Account>, id: Id, cfg: Config, saltRandom: seq<byte>,
                                    tokenRandom: seq<byte>, mailDelivered: bool)
    requires |tokenRandom| == TokenBytes
    ensures |"abcde\U{FE0F}"| == 6 && ValidatorLength("abcde\U{FE0F}") == 5
    ensures Register(s, id, cfg, "bob", "b@x.com", "abcde\U{FE0F}", saltRandom, tokenRandom, mailDelivered)
            == Outcome(InvalidInput, s, None)
  {
  }

  /** An email already on file is refused before anything is written. */
  lemma RegisterRejectsDuplicateEmail(s: seq<Account>, id: Id, cfg: Config, username: string, email: string,
                                      password: string, saltRandom: seq<byte>, tokenRandom: seq<byte>,
                                      mailDelivered: bool, i: nat)
    requires |tokenRandom| == TokenBytes
    requires username != "" && LongEnough(password)
    requires i < |s| && s[i].email == email
    ensures Register(s, id, cfg, username, email, password, saltRandom, tokenRandom, mailDelivered)
            == Outcome(UserAlreadyExists, s, None)
    ensures Status(UserAlreadyExists) == 400 && Message(UserAlreadyExists) == "User already exists"
  {
    assert Matches(s[i], ByEmail(email));
  }

  /** A fresh email with a taken username gets past the email check but
      the unique index on username rejects the save: "Server error", and
      nothing is written. */
  lemma RegisterDuplicateUsernameFails(s: seq<Account>, id: Id, cfg: Config, username: string, email: string,
                                       password: string, saltRandom: seq<byte>, tokenRandom: seq<byte>,
                                       mailDelivered: bool, i: nat)
    requires |tokenRandom| == TokenBytes
    requires username != "" && LongEnough(password)
    requires forall j :: 0 <= j < |s| ==> s[j].email != email
    requires i < |s| && s[i].username == username
    ensures Register(s, id, cfg, username, email, password, saltRandom, tokenRandom, mailDelivered)
            == Outcome(ServerError, s, None)
  {
    InsertClashFails(s, PendingAccount(id, username, email, password, saltRandom, RandomToken(tokenRandom)), i);
  }

  /** A successful registration appends exactly one unverified account
      holding the digest of the password (never the password itself) and
      the token sent in the verification link.  If the mail then fails the
      response is "Server error", but the account stays. */
  lemma RegisterCreatesPendingAccount(s: seq<Account>, id: Id, cfg: Config, username: string, email: string,
                                      password: string, saltRandom: seq<byte>, tokenRandom: seq<byte>,
                                      mailDelivered: bool)
    requires |tokenRandom| == TokenBytes
    requires username != "" && email != "" && LongEnough(password)
    requires forall j :: 0 <= j < |s| ==> s[j].email != email && s[j].username != username && s[j].id != id
    ensures var o := Register(s, id, cfg, username, email, password, saltRandom, tokenRandom, mailDelivered);
      && |o.accounts| == |s| + 1 && o.accounts[..|s|] == s
      && var a := o.accounts[|s|];
      && a.id == id && a.username == username && a.email == email
      && a.password == Hash(password, GenSalt(saltRandom)) && a.password != Plain(password)
      && Compare(password, a.password)
      && !a.isVerified && a.verificationToken == Some(RandomToken(tokenRandom))
      && a.resetPasswordToken.None? && a.resetPasswordExpire.None?
      && o.mail == Some(VerificationMail(cfg, email, RandomToken(tokenRandom)))
      && o.response == (if mailDelivered then Registered else ServerError)
  {
    var a := PendingAccount(id, username, email, password, saltRandom, RandomToken(tokenRandom));
    assert forall j :: 0 <= j < |s| ==> !Clash(s[j], a);
    assert (s + [a])[..|s|] == s;
  }

  /** Register writes nothing, or appends one record. */
  lemma RegisterAddsAtMostOne(s: seq<Account>, id: Id, cfg: Config, username: string, email: string,
                              password: string, saltRandom: seq<byte>, tokenRandom: seq<byte>,
                              mailDelivered: bool)
    requires |tokenRandom| == TokenBytes
    ensures var o := Register(s, id, cfg, username, email, password, saltRandom, tokenRandom, mailDelivered);
      o.accounts == s || o.accounts == s + [PendingAccount(id, username, email, password, saltRandom, RandomToken(tokenRandom))]
    ensures var o := Register(s, id, cfg, username, email, password, saltRandom, tokenRandom, mailDelivered);
      o.response == Registered ==> |o.accounts| == |s| + 1
  {
  }

  // ---------------------------------------------------------------------
  // Verify email

  /** Verification activates the account the token belongs to and clears
      the token; every other field and every other record stays. */
  lemma VerifyEmailActivates(s: seq<Account>, token: string, i: nat)
    requires Wellformed(s)
    requires FindFirst(s, ByVerificationToken(token)) == Some(i)
    ensures VerifyEmail(s, token)
            == Outcome(EmailVerified, s[i := s[i].(isVerified := true, verificationToken := None)], None)
  {
    UpdateInPlace(s, i, s[i].(isVerified := true, verificationToken := None));
  }

  lemma VerifyEmailUnknownToken(s: seq<Account>, token: string)
    requires forall j :: 0 <= j < |s| ==> s[j].verificationToken != Some(token)
    ensures VerifyEmail(s, token) == Outcome(InvalidVerificationToken, s, None)
  {
  }

  /** At most one record holds this verification token (tokens are
      random; nothing but 160 bits of entropy keeps them apart). */
  ghost predicate VerificationTokenUnique(s: seq<Account>, token: string) {
    forall i, j :: 0 <= i < j < |s| && s[i].verificationToken == Some(token) ==> s[j].verificationToken != Some(token)
  }

  /** A verification token works once: replaying it is refused and
      changes nothing. */
  lemma VerifyEmailSingleUse(s: seq<Account>, token: string)
    requires Wellformed(s) && VerificationTokenUnique(s, token)
    requires VerifyEmail(s, token).response == EmailVerified
    ensures var s' := VerifyEmail(s, token).accounts;
      VerifyEmail(s', token) == Outcome(InvalidVerificationToken, s', None)
  {
    var i := FindFirst(s, ByVerificationToken(token)).value;
    VerifyEmailActivates(s, token, i);
    var s' := s[i := s[i].(isVerified := true, verificationToken := None)];
    forall j | 0 <= j < |s'| ensures s'[j].verificationToken != Some(token) {
      if j < i {
        assert !Matches(s[j], ByVerificationToken(token));
      } else if j > i {
        assert s[i].verificationToken == Some(token);
      }
    }
  }

  // ---------------------------------------------------------------------
  // Login

  /** Nothing on file for the email: "Invalid Credentials". */
  lemma LoginUnknownEmail(s: seq<Account>, cfg: Config, email: string, password: string, now: nat)
    requires forall j :: 0 <= j < |s| ==> s[j].email != email
    ensures Login(s, cfg, email, password, now) == InvalidCredentials
    ensures Status(InvalidCredentials) == 400 && Message(InvalidCredentials) == "Invalid Credentials"
  {
  }

  /** Login's checks, in their order, for the account with that email:
      unverified first (whatever the password), then the password (the same
      answer as an unknown email), then signing. */
  lemma {:induction false} LoginChecksInOrder(s: seq<Account>, cfg: Config, email: string, password: string,
                                              now: nat, i: nat)
    requires Wellformed(s) && i < |s| && s[i].email == email
    ensures !s[i].isVerified ==> Login(s, cfg, email, password, now) == VerifyEmailFirst
    ensures s[i].isVerified && !Compare(password, s[i].password) ==>
      Login(s, cfg, email, password, now) == InvalidCredentials
    ensures s[i].isVerified && Compare(password, s[i].password) && !Session.Usable(cfg.jwtSecret) ==>
      Login(s, cfg, email, password, now) == ServerError
    ensures s[i].isVerified && Compare(password, s[i].password) && Session.Usable(cfg.jwtSecret) ==>
      var r := Login(s, cfg, email, password, now);
      && r.LoggedIn?
      && r.token.user == Session.Claims(s[i].id, s[i].username)
      && r.token.exp == r.token.iat + Session.ExpiresIn
      && r.token.iat * 1000 <= now < r.token.iat * 1000 + 1000
  {
    FindUnique(s, i);
  }

  // ---------------------------------------------------------------------
  // Forgot password

  /** Unlike login, an unknown email is reported as such (404). */
  lemma ForgotPasswordUnknownEmail(s: seq<Account>, cfg: Config, email: string, tokenRandom: seq<byte>,
                                   now: nat, mailDelivered: bool)
    requires |tokenRandom| == TokenBytes
    requires forall j :: 0 <= j < |s| ==> s[j].email != email
    ensures ForgotPassword(s, cfg, email, tokenRandom, now, mailDelivered) == Outcome(UserNotFound, s, None)
    ensures Status(UserNotFound) == 404 && Message(UserNotFound) == "User not found"
  {
  }

  /** The account gets the new reset token and an expiry one hour after
      `now`, replacing any earlier pair; nothing else changes. */
  lemma ForgotPasswordIssuesToken(s: seq<Account>, cfg: Config, email: string, tokenRandom: seq<byte>,
                                  now: nat, mailDelivered: bool, i: nat)
    requires |tokenRandom| == TokenBytes
    requires Wellformed(s) && i < |s| && s[i].email == email
    ensures var token := RandomToken(tokenRandom);
      ForgotPassword(s, cfg, email, tokenRandom, now, mailDelivered)
      == Outcome(if mailDelivered then ResetLinkSent else ServerError,
                 s[i := s[i].(resetPasswordToken := Some(token), resetPasswordExpire := Some(now + ResetWindow))],
                 Some(ResetMail(cfg, email, token)))
  {
    FindUnique(s, i);
    var token := RandomToken(tokenRandom);
    UpdateInPlace(s, i, s[i].(resetPasswordToken := Some(token), resetPasswordExpire := Some(now + ResetWindow)));
  }

  /** After a second request only the newest reset token matches the
      account; the first one (made from other random bytes) is dead. */
  lemma ForgotPasswordLatestTokenOnly(s: seq<Account>, cfg: Config, email: string,
                                      random1: seq<byte>, now1: nat, random2: seq<byte>, now2: nat,
                                      mail1: bool, mail2: bool, i: nat, later: nat)
    requires |random1| == TokenBytes && |random2| == TokenBytes && random1 != random2
    requires Wellformed(s) && i < |s| && s[i].email == email
    ensures var s1 := ForgotPassword(s, cfg, email, random1, now1, mail1).accounts;
      var s2 := ForgotPassword(s1, cfg, email, random2, now2, mail2).accounts;
      && |s2| == |s|
      && Matches(s2[i], ByResetToken(RandomToken(random2), later)) == (later < now2 + ResetWindow)
      && !Matches(s2[i], ByResetToken(RandomToken(random1), later))
  {
    ForgotPasswordIssuesToken(s, cfg, email, random1, now1, mail1, i);
    var a1 := s[i].(resetPasswordToken := Some(RandomToken(random1)),
                    resetPasswordExpire := Some(now1 + ResetWindow));
    var s1 := ForgotPassword(s, cfg, email, random1, now1, mail1).accounts;
    assert s1 == s[i := a1];
    SavePreservesWellformed(s, a1, false);
    assert Wellformed(s1) && s1[i].email == email;
    ForgotPasswordIssuesToken(s1, cfg, email, random2, now2, mail2, i);
    var s2 := ForgotPassword(s1, cfg, email, random2, now2, mail2).accounts;
    assert s2[i].resetPasswordToken == Some(RandomToken(random2));
    assert s2[i].resetPasswordExpire == Some(now2 + ResetWindow);
    if RandomToken(random1) == RandomToken(random2) {
      EncodeInjective(random1, random2);
    }
  }

  // ---------------------------------------------------------------------
  // Reset password

  /** The reset goes through exactly when some record holds the token with
      an expiry strictly after `now`; otherwise "Invalid or expired reset
      token" and nothing is written. */
  lemma ResetPasswordNeedsLiveToken(s: seq<Account>, token: string, password: string,
                                    saltRandom: seq<byte>, now: nat)
    requires Wellformed(s) && LongEnough(password)
    ensures var o := ResetPassword(s, token, password, saltRandom, now);
      o.response == PasswordResetDone <==>
        exists i :: 0 <= i < |s| && s[i].resetPasswordToken == Some(token)
                    && s[i].resetPasswordExpire.Some? && s[i].resetPasswordExpire.value > now
    ensures var o := ResetPassword(s, token, password, saltRandom, now);
      o.response != PasswordResetDone ==> o == Outcome(InvalidResetToken, s, None)
  {
    var r := FindFirst(s, ByResetToken(token, now));
    if r.Some? {
      var i := r.value;
      UpdateInPlace(s, i, s[i].(password := Hash(password, GenSalt(saltRandom)),
                                resetPasswordToken := None, resetPasswordExpire := None));
    } else {
      forall i | 0 <= i < |s|
        ensures !(s[i].resetPasswordToken == Some(token) && s[i].resetPasswordExpire.Some?
                  && s[i].resetPasswordExpire.value > now)
      {
        assert !Matches(s[i], ByResetToken(token, now));
      }
    }
  }

  lemma ResetPasswordRejectsInvalidInput(s: seq<Account>, token: string, password: string,
                                         saltRandom: seq<byte>, now: nat)
    requires !LongEnough(password)
    ensures ResetPassword(s, token, password, saltRandom, now) == Outcome(InvalidInput, s, None)
    ensures Status(InvalidInput) == 400
  {
  }

  /** A successful reset stores the digest of the new password and clears
      the reset pair; verification state, username and email are kept. */
  lemma ResetPasswordReplacesHash(s: seq<Account>, token: string, password: string,
                                  saltRandom: seq<byte>, now: nat, i: nat)
    requires Wellformed(s) && LongEnough(password)
    requires FindFirst(s, ByResetToken(token, now)) == Some(i)
    ensures ResetPassword(s, token, password, saltRandom, now)
            == Outcome(PasswordResetDone,
                       s[i := s[i].(password := Hash(password, GenSalt(saltRandom)),
                                    resetPasswordToken := None, resetPasswordExpire := None)],
                       None)
  {
    UpdateInPlace(s, i, s[i].(password := Hash(password, GenSalt(saltRandom)),
                              resetPasswordToken := None, resetPasswordExpire := None));
  }

  /** At most one record holds this reset token. */
  ghost predicate ResetTokenUnique(s: seq<Account>, token: string) {
    forall i, j :: 0 <= i < j < |s| && s[i].resetPasswordToken == Some(token) ==> s[j].resetPasswordToken != Some(token)
  }

  /** A reset token works once: replaying it, however soon, is refused. */
  lemma ResetPasswordSingleUse(s: seq<Account>, token: string, password: string, saltRandom: seq<byte>,
                               now: nat, password2: string, saltRandom2: seq<byte>, now2: nat)
    requires Wellformed(s) && ResetTokenUnique(s, token) && LongEnough(password)
    requires ResetPassword(s, token, password, saltRandom, now).response == PasswordResetDone
    ensures var s' := ResetPassword(s, token, password, saltRandom, now).accounts;
      ResetPassword(s', token, password2, saltRandom2, now2).response != PasswordResetDone
  {
    var i := FindFirst(s, ByResetToken(token, now)).value;
    ResetPasswordReplacesHash(s, token, password, saltRandom, now, i);
    var s' := ResetPassword(s, token, password, saltRandom, now).accounts;
    forall j | 0 <= j < |s'| ensures s'[j].resetPasswordToken != Some(token) {
      if j < i {
        assert s[i].resetPasswordToken == Some(token);
        assert !(s[j].resetPasswordToken == Some(token));
      } else if j > i {
        assert s[i].resetPasswordToken == Some(token);
      }
    }
    assert FindFirst(s', ByResetToken(token, now2)).None?;
  }

  /** The expiry is a strict cutoff: a token issued at time `issued` still
      works one millisecond before `issued + ResetWindow`, and from
      `issued + ResetWindow` on it is refused exactly like an unknown one. */
  lemma ResetWindowIsStrict(s: seq<Account>, cfg: Config, email: string, tokenRandom: seq<byte>,
                            issued: nat, mailDelivered: bool, i: nat,
                            password: string, saltRandom: seq<byte>, now: nat)
    requires |tokenRandom| == TokenBytes && LongEnough(password)
    requires Wellformed(s) && i < |s| && s[i].email == email
    requires forall j :: 0 <= j < |s| ==> s[j].resetPasswordToken != Some(RandomToken(tokenRandom))
    ensures var s1 := ForgotPassword(s, cfg, email, tokenRandom, issued, mailDelivered).accounts;
      var o := ResetPassword(s1, RandomToken(tokenRandom), password, saltRandom, now);
      (o.response == PasswordResetDone <==> now < issued + ResetWindow)
      && (o.response != PasswordResetDone ==> o == Outcome(InvalidResetToken, s1, None))
  {
    var token := RandomToken(tokenRandom);
    ForgotPasswordIssuesToken(s, cfg, email, tokenRandom, issued, mailDelivered, i);
    var a := s[i].(resetPasswordToken := Some(token), resetPasswordExpire := Some(issued + ResetWindow));
    SavePreservesWellformed(s, a, false);
    var s1 := s[i := a];
    ResetPasswordNeedsLiveToken(s1, token, password, saltRandom, now);
    if now < issued + ResetWindow {
      assert s1[i].resetPasswordToken == Some(token) && s1[i].resetPasswordExpire.value > now;
    }
  }

  /** A verified account whose stored digest is that of `password` logs in
      with it, and not with a password from which bcrypt reads other bytes. */
  lemma LoginWithDigestOf(s: seq<Account>, cfg: Config, email: string, i: nat, password: string,
                          salt: Salt, other: string, now: nat)
    requires Wellformed(s) && i < |s| && s[i].email == email && s[i].isVerified
    requires s[i].password == Hash(password, salt)
    requires Session.Usable(cfg.jwtSecret) && Key(other) != Key(password)
    ensures Login(s, cfg, email, password, now).LoggedIn?
    ensures Login(s, cfg, email, other, now) == InvalidCredentials
  {
    LoginChecksInOrder(s, cfg, email, password, now, i);
    LoginChecksInOrder(s, cfg, email, other, now, i);
  }

  /** Forgot, then reset within the hour: the account keeps its email and
      its verification and holds the digest of the new password. */
  lemma ForgotThenReset(s: seq<Account>, cfg: Config, email: string, tokenRandom: seq<byte>,
                        issued: nat, mailDelivered: bool, i: nat,
                        newPassword: string, saltRandom: seq<byte>, now: nat)
    requires |tokenRandom| == TokenBytes && LongEnough(newPassword)
    requires Wellformed(s) && i < |s| && s[i].email == email
    requires forall j :: 0 <= j < |s| ==> s[j].resetPasswordToken != Some(RandomToken(tokenRandom))
    requires now < issued + ResetWindow
    ensures var s1 := ForgotPassword(s, cfg, email, tokenRandom, issued, mailDelivered).accounts;
      var s2 := ResetPassword(s1, RandomToken(tokenRandom), newPassword, saltRandom, now).accounts;
      && Wellformed(s2) && i < |s2| && s2[i].email == email && s2[i].isVerified == s[i].isVerified
      && s2[i].password == Hash(newPassword, GenSalt(saltRandom))
  {
    var token := RandomToken(tokenRandom);
    ForgotPasswordIssuesToken(s, cfg, email, tokenRandom, issued, mailDelivered, i);
    var a := s[i].(resetPasswordToken := Some(token), resetPasswordExpire := Some(issued + ResetWindow));
    SavePreservesWellformed(s, a, false);
    var s1 := s[i := a];
    assert ForgotPassword(s, cfg, email, tokenRandom, issued, mailDelivered).accounts == s1;
    assert Matches(s1[i], ByResetToken(token, now));
    assert FindFirst(s1, ByResetToken(token, now)) == Some(i);
    ResetPasswordReplacesHash(s1, token, newPassword, saltRandom, now, i);
    var b := a.(password := Hash(newPassword, GenSalt(saltRandom)), resetPasswordToken := None, resetPasswordExpire := None);
    SavePreservesWellformed(s1, b, false);
    assert ResetPassword(s1, token, newPassword, saltRandom, now).accounts == s1[i := b];
  }

  /** Forgot, then reset within the hour: the new password logs in and
      the old one no longer does, provided bcrypt can tell the two apart
      (bcrypt reads different 72 bytes from them; see
      Credentials.LongPasswordsCollide and Credentials.NulPasswordsCollide). */
  lemma ResetThenLogin(s: seq<Account>, cfg: Config, email: string, tokenRandom: seq<byte>,
                       issued: nat, mailDelivered: bool, i: nat,
                       newPassword: string, saltRandom: seq<byte>, now: nat,
                       oldPassword: string, later: nat)
    requires |tokenRandom| == TokenBytes && LongEnough(newPassword)
    requires Wellformed(s) && i < |s| && s[i].email == email && s[i].isVerified
    requires forall j :: 0 <= j < |s| ==> s[j].resetPasswordToken != Some(RandomToken(tokenRandom))
    requires now < issued + ResetWindow && Session.Usable(cfg.jwtSecret) && Key(oldPassword) != Key(newPassword)
    ensures var s1 := ForgotPassword(s, cfg, email, tokenRandom, issued, mailDelivered).accounts;
      var s2 := ResetPassword(s1, RandomToken(tokenRandom), newPassword, saltRandom, now).accounts;
      && Login(s2, cfg, email, newPassword, later).LoggedIn?
      && Login(s2, cfg, email, oldPassword, later) == InvalidCredentials
  {
    ForgotThenReset(s, cfg, email, tokenRandom, issued, mailDelivered, i, newPassword, saltRandom, now);
    var s1 := ForgotPassword(s, cfg, email, tokenRandom, issued, mailDelivered).accounts;
    var s2 := ResetPassword(s1, RandomToken(tokenRandom), newPassword, saltRandom, now).accounts;
    LoginWithDigestOf(s2, cfg, email, i, newPassword, GenSalt(saltRandom), oldPassword, later);
  }

  // ---------------------------------------------------------------------
  // A concrete run

  /** "wrong" does not match the digest of "secret1". */
  lemma AliceWrongPassword(salt: Salt)
    ensures !Compare("wrong", Hash("secret1", salt))
  {
    assert NulFree("secret1") && NulFree("wrong");
    WrongPasswordRejected("secret1", "wrong", salt);
  }

  /** register alice, verify with the mailed token, a wrong password is
      refused and the right one logs in. */
  lemma AliceScenario(cfg: Config, saltRandom: seq<byte>, tokenRandom: seq<byte>, now: nat)
    requires |tokenRandom| == TokenBytes && Session.Usable(cfg.jwtSecret)
    ensures var r := Register([], 0, cfg, "alice", "a@x.com", "secret1", saltRandom, tokenRandom, true);
      && r.response == Registered
      && var v := VerifyEmail(r.accounts, RandomToken(tokenRandom));
      && v.response == EmailVerified
      && Login(v.accounts, cfg, "a@x.com", "wrong", now) == InvalidCredentials
      && Login(v.accounts, cfg, "a@x.com", "secret1", now)
         == LoggedIn(Session.Token(Session.Claims(0, "alice"), now / 1000, now / 1000 + Session.ExpiresIn))
  {
    var token := RandomToken(tokenRandom);
    assert ValidatorLength("secret1") == 7;
    AliceWrongPassword(GenSalt(saltRandom));
    var a := PendingAccount(0, "alice", "a@x.com", "secret1", saltRandom, token);
    assert Register([], 0, cfg, "alice", "a@x.com", "secret1", saltRandom, tokenRandom, true).accounts == [a];
    assert Wellformed([a]);
    VerifyEmailActivates([a], token, 0);
  }
}
