/** The auth router's handlers: each one looks a document up, assigns its
    fields, saves it and answers, in the order the routes do.  Each is
    proved to compute the matching Lifecycle transition on the store. */
module AuthRoutes {
  import opened Wrappers
  import opened Bytes
  import opened Credentials
  import Session
  import opened UserModel
  import opened Lifecycle

  /** POST /register. */
  method PostRegister(store: UserStore, cfg: Config, username: string, email: string, password: string,
                      saltRandom: seq<byte>, tokenRandom: seq<byte>, mailDelivered: bool)
    returns (response: Response, mail: Option<Mail>)
    requires store.Valid() && |tokenRandom| == TokenBytes
    modifies store
    ensures store.Valid() && store.nextId >= old(store.nextId)
    ensures Outcome(response, store.accounts, mail)
            == Register(old(store.accounts), old(store.nextId), cfg, username, email, password,
                        saltRandom, tokenRandom, mailDelivered)
    ensures Invariant(old(store.accounts)) ==> Invariant(store.accounts)
  {
    if Invariant(store.accounts) {
      RegisterKeepsInvariant(store.accounts, store.nextId, cfg, username, email, password,
                             saltRandom, tokenRandom, mailDelivered);
    }
    if username == "" || !LongEnough(password) {
      return InvalidInput, None;
    }
    var existing := store.FindOne(ByEmail(email));
    if existing != null {
      return UserAlreadyExists, None;
    }
    var id := store.NewId();
    var user := new UserDoc(id, username, email, password);
    user.password := Hash(password, GenSalt(saltRandom));
    var verificationToken := user.GetVerificationToken(tokenRandom);
    assert user.Record() == PendingAccount(id, username, email, password, saltRandom, verificationToken);
    var err := store.SaveDoc(user);
    if err.Some? {
      return ServerError, None;
    }
    mail := Some(VerificationMail(cfg, email, verificationToken));
    response := if mailDelivered then Registered else ServerError;
  }

  /** GET /verify/:token. */
  method GetVerify(store: UserStore, token: string) returns (response: Response)
    requires store.Valid()
    modifies store
    ensures store.Valid() && store.nextId == old(store.nextId)
    ensures Outcome(response, store.accounts, None) == VerifyEmail(old(store.accounts), token)
    ensures Invariant(old(store.accounts)) ==> Invariant(store.accounts)
  {
    if Invariant(store.accounts) {
      VerifyEmailKeepsInvariant(store.accounts, token);
    }
    var user := store.FindOne(ByVerificationToken(token));
    if user == null {
      return InvalidVerificationToken;
    }
    user.isVerified := true;
    user.verificationToken := None;
    var err := store.SaveDoc(user);
    if err.Some? {
      return ServerError;
    }
    response := EmailVerified;
  }

  /** POST /login, at wall-clock time `now` (ms).  The store is only read. */
  method PostLogin(store: UserStore, cfg: Config, email: string, password: string, now: nat)
    returns (response: Response)
    ensures response == Login(store.accounts, cfg, email, password, now)
  {
    var user := store.FindOne(ByEmail(email));
    if user == null {
      return InvalidCredentials;
    }
    if !user.isVerified {
      return VerifyEmailFirst;
    }
    var isMatch := Compare(password, user.password);
    if !isMatch {
      return InvalidCredentials;
    }
    var payload := Session.Claims(user.id, user.username);
    var signed := Session.Sign(payload, cfg.jwtSecret, now);
    if signed.None? {
      return ServerError;
    }
    response := LoggedIn(signed.value);
  }

  /** POST /forgot-password, at time `now` (ms). */
  method PostForgotPassword(store: UserStore, cfg: Config, email: string, tokenRandom: seq<byte>,
                            now: nat, mailDelivered: bool)
    returns (response: Response, mail: Option<Mail>)
    requires store.Valid() && |tokenRandom| == TokenBytes
    modifies store
    ensures store.Valid() && store.nextId == old(store.nextId)
    ensures Outcome(response, store.accounts, mail)
            == ForgotPassword(old(store.accounts), cfg, email, tokenRandom, now, mailDelivered)
    ensures Invariant(old(store.accounts)) ==> Invariant(store.accounts)
  {
    if Invariant(store.accounts) {
      ForgotPasswordKeepsInvariant(store.accounts, cfg, email, tokenRandom, now, mailDelivered);
    }
    var user := store.FindOne(ByEmail(email));
    if user == null {
      return UserNotFound, None;
    }
    var resetToken := user.GetResetPasswordToken(tokenRandom, now);
    var err := store.SaveDoc(user);
    if err.Some? {
      return ServerError, None;
    }
    mail := Some(ResetMail(cfg, email, resetToken));
    response := if mailDelivered then ResetLinkSent else ServerError;
  }

  /** PUT /reset-password/:token, at time `now` (ms). */
  method PutResetPassword(store: UserStore, token: string, password: string, saltRandom: seq<byte>, now: nat)
    returns (response: Response)
    requires store.Valid()
    modifies store
    ensures store.Valid() && store.nextId == old(store.nextId)
    ensures Outcome(response, store.accounts, None)
            == ResetPassword(old(store.accounts), token, password, saltRandom, now)
    ensures Invariant(old(store.accounts)) ==> Invariant(store.accounts)
  {
    if Invariant(store.accounts) {
      ResetPasswordKeepsInvariant(store.accounts, token, password, saltRandom, now);
    }
    if !LongEnough(password) {
      return InvalidInput;
    }
    var user := store.FindOne(ByResetToken(token, now));
    if user == null {
      return InvalidResetToken;
    }
    user.password := Hash(password, GenSalt(saltRandom));
    user.resetPasswordToken := None;
    user.resetPasswordExpire := None;
    var err := store.SaveDoc(user);
    if err.Some? {
      return ServerError;
    }
    response := PasswordResetDone;
  }
}
