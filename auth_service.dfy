/** `AuthService`: registration, login, token refresh, email verification and
    the password flows, each an ordered sequence of reads and writes on the
    `users` and `refresh_tokens` tables. The clock, the random OTP and the
    bcrypt salt are parameters; emails sent along the way have no effect on
    the stored state and are not modelled. */
module AuthService {
  import opened Wrappers
  import opened Text
  import opened Crypto
  import opened AuthTokens
  import opened UserModel
  import UserSchema
  import opened Database
  import UserRepository
  import RefreshTokenRepository
  import RefreshTokenModel

  datatype AuthError =
    | EmailAlreadyRegistered
    | Validation(reason: UserSchema.ValidationError)
    | Integrity(error: DbError)
    | InvalidCredentials
    | AccountDeleted
    | AccountInactive
    | Token(tokenError: TokenError)
    | TokenNotFound
    | UserNotFound
    | AlreadyVerified
    | InvalidOtp
    | TooSoon
    | NotVerified
    | InvalidResetRequest
    | InvalidResetCode
    | PasswordTooShort
    | WrongPassword
    | SamePassword

  /** `AuthType`: the account and the two tokens handed to the client. */
  datatype Session = Session(userId: int, accessToken: Jwt, refreshToken: Jwt)

  /** The stored refresh-token row of a session opened at `now`. */
  function SessionRow(userId: int, email: string, now: int): RefreshTokenModel.RefreshToken
  {
    RefreshTokenModel.RefreshToken(userId, RefreshToken(email, now), now + RefreshTtl)
  }

  // ---------------------------------------------------------------------------
  // register

  /** The row `register` inserts: the schema validator lowercases the email,
      then the ORM validator checks the lowercased address again; the account
      is an inactive attendee holding the digest of the password. */
  function RegisteredUser(name: string, email: string, password: string, salt: int, now: int)
    : (r: Result<User, UserSchema.ValidationError>)
    ensures r.Success? <==> UserSchema.ValidateEmail(email).Success? && ValidateEmail(Lower(email)).Success?
    ensures UserSchema.ValidateEmail(email).Failure? ==> r == Failure(UserSchema.ValidateEmail(email).error)
    ensures r.Success? ==>
              && r.value.email == Lower(email) && Verify(password, r.value.password)
              && !r.value.isActive && r.value.role == UserSchema.Attendee && r.value.emailOtp.None?
  {
    var checked := UserSchema.ValidateEmail(email);
    if checked.Failure? then Failure(checked.error)
    else
      var stored := ValidateEmail(checked.value);
      if stored.Failure? then Failure(stored.error)
      else
        LowerIdempotent(email);
        Success(NewUser(name, stored.value, Hash(password, salt), None, UserSchema.Attendee, false, now))
  }

  /** The outcome of inserting the validated account `user` into a table
      holding `before` whose sequence stands at `next`, then storing its
      verification OTP: the unique index refuses an address already stored. */
  ghost predicate Enrolled(r: Result<int, AuthError>, before: map<int, User>, next: int, after: map<int, User>,
                           user: User, otp: string, now: int)
  {
    && (r.Failure? <==> exists k | k in before :: before[k].email == user.email)
    && (r.Failure? ==> r.error == Integrity(UniqueViolation) && after == before)
    && (r.Success? ==>
          && r.value == next && next !in before
          && after == before[next := UserRepository.WithEmailOtp(user, otp, now + OtpTtl)])
  }

  /** `register`: refuses an address already registered (compared as given,
      while stored addresses are lowercase), validates the address, inserts the
      inactive account, and stores a verification OTP valid for 10 minutes. */
  method Register(db: Db, name: string, email: string, password: string, salt: int, otp: string, now: int)
    returns (r: Result<int, AuthError>)
    requires db.Valid()
    modifies db
    ensures db.Valid()
    ensures db.EventsSame() && db.TicketsSame() && db.RsvpsSame() && db.TokensSame()
    ensures var user := RegisteredUser(name, email, password, salt, now);
            && (UserRepository.GetByEmail(old(db.users), email).Some? ==>
                  r == Failure(EmailAlreadyRegistered) && db.UsersSame())
            && (UserRepository.GetByEmail(old(db.users), email).None? && user.Failure? ==>
                  r == Failure(Validation(user.error)) && db.UsersSame())
            && (UserRepository.GetByEmail(old(db.users), email).None? && user.Success? ==>
                  Enrolled(r, old(db.users), old(db.nextUserId), db.users, user.value, otp, now))
  {
    if UserRepository.GetByEmail(db.users, email).Some? {
      return Failure(EmailAlreadyRegistered);
    }
    var user := RegisteredUser(name, email, password, salt, now);
    if user.Failure? {
      return Failure(Validation(user.error));
    }
    r := Enroll(db, user.value, otp, now);
  }

  /** The insert of `register` followed by its verification OTP. */
  method Enroll(db: Db, user: User, otp: string, now: int) returns (r: Result<int, AuthError>)
    requires db.Valid()
    modifies db
    ensures db.Valid()
    ensures db.EventsSame() && db.TicketsSame() && db.RsvpsSame() && db.TokensSame()
    ensures Enrolled(r, old(db.users), old(db.nextUserId), db.users, user, otp, now)
  {
    var created := UserRepository.Create(db, user);
    if created.Failure? {
      assert created.error == UniqueViolation;
      return Failure(Integrity(created.error));
    }
    SendEmailVerificationOtp(db, created.value, otp, now);
    r := Success(created.value);
  }

  /** `_send_email_verification_otp`: stores the code with an expiry 10
      minutes ahead (sending the email has no effect on the stored state). */
  method SendEmailVerificationOtp(db: Db, id: int, otp: string, now: int)
    requires db.Valid() && id in db.users
    modifies db
    ensures db.Valid()
    ensures db.EventsSame() && db.TicketsSame() && db.RsvpsSame() && db.TokensSame()
    ensures db.users == old(db.users)[id := UserRepository.WithEmailOtp(old(db.users)[id], otp, now + OtpTtl)]
    ensures db.nextUserId == old(db.nextUserId)
  {
    var _ := UserRepository.UpdateEmailOtp(db, id, otp, now + OtpTtl);
  }

  /** An address that differs from a registered one only in case passes the
      duplicate lookup and is then refused by the unique index. */
  lemma MixedCaseDuplicateReachesTheIndex(users: map<int, User>, k: int, email: string)
    requires k in users && users[k].email == Lower(email) && email != Lower(email)
    requires UniqueEmails(users)
    ensures UserRepository.GetByEmail(users, email).None? || UserRepository.GetByEmail(users, email).value.0 != k
    ensures UserRepository.GetByEmail(users, Lower(email)) == Some((k, users[k]))
  {
    UserRepository.GetByEmailUnique(users, Lower(email), k);
  }

  // ---------------------------------------------------------------------------
  // login

  /** The guards of `login`: one message for an unknown address and for a
      wrong password, then deleted accounts, then inactive ones. */
  function LoginRejection(users: map<int, User>, email: string, password: string): (r: Option<AuthError>)
    ensures var found := UserRepository.GetByEmail(users, email);
            && (r == Some(InvalidCredentials) <==> found.None? || !Verify(password, found.value.1.password))
            && (r == Some(AccountDeleted) <==>
                  found.Some? && Verify(password, found.value.1.password) && found.value.1.isDeleted)
            && (r == Some(AccountInactive) <==>
                  found.Some? && Verify(password, found.value.1.password) && !found.value.1.isDeleted
                  && !found.value.1.isActive)
            && (r.None? <==>
                  found.Some? && Verify(password, found.value.1.password) && !found.value.1.isDeleted
                  && found.value.1.isActive)
  {
    var found := UserRepository.GetByEmail(users, email);
    if found.None? || !Verify(password, found.value.1.password) then Some(InvalidCredentials)
    else if found.value.1.isDeleted then Some(AccountDeleted)
    else if !found.value.1.isActive then Some(AccountInactive)
    else None
  }

  /** The outcome of storing the refresh token of a new session for the
      account `id` with address `email`, on a table holding `before` whose
      sequence stands at `next`: the row is inserted under the next id, or the
      unique index refuses a token string that is already stored and the table
      is left as it was. */
  ghost predicate Issued(r: Result<Session, AuthError>, before: map<int, RefreshTokenModel.RefreshToken>, next: int,
                         after: map<int, RefreshTokenModel.RefreshToken>, id: int, email: string, now: int)
  {
    && (r.Failure? <==> exists k | k in before :: before[k].token == RefreshToken(email, now))
    && (r.Failure? ==> r.error == Integrity(UniqueViolation) && after == before)
    && (r.Success? ==>
          && r.value == Session(id, AccessToken(email, now), RefreshToken(email, now))
          && next !in before && after == before[next := SessionRow(id, email, now)])
  }

  /** The common tail of `login` and `refresh_tokens`: a fresh access token
      and a stored refresh token valid for seven days. */
  method IssueSession(db: Db, id: int, email: string, now: int) returns (r: Result<Session, AuthError>)
    requires db.Valid() && id in db.users
    modifies db
    ensures db.Valid()
    ensures db.UsersSame() && db.EventsSame() && db.TicketsSame() && db.RsvpsSame()
    ensures Issued(r, old(db.tokens), old(db.nextTokenId), db.tokens, id, email, now)
  {
    var refresh := RefreshToken(email, now);
    var created := RefreshTokenRepository.Create(db, id, refresh, now + RefreshTtl);
    if created.Failure? {
      assert created.error == UniqueViolation;
      return Failure(Integrity(created.error));
    }
    r := Success(Session(id, AccessToken(email, now), refresh));
  }

  /** `login`: after the guards, revokes every refresh token of the user,
      records the login time, and stores the one new refresh token. */
  method Login(db: Db, email: string, password: string, now: int) returns (r: Result<Session, AuthError>)
    requires db.Valid()
    modifies db
    ensures db.Valid()
    ensures db.EventsSame() && db.TicketsSame() && db.RsvpsSame()
    ensures var rejection := LoginRejection(old(db.users), email, password);
            && (rejection.Some? ==> r == Failure(rejection.value) && db.Same())
            && (rejection.None? ==>
                  var found := UserRepository.GetByEmail(old(db.users), email).value;
                  && db.users == old(db.users)[found.0 := found.1.(lastLogin := Some(now))]
                  && Issued(r, RefreshTokenRepository.WithoutUser(old(db.tokens), found.0), old(db.nextTokenId),
                            db.tokens, found.0, found.1.email, now))
  {
    var rejection := LoginRejection(db.users, email, password);
    if rejection.Some? {
      return Failure(rejection.value);
    }
    var found := UserRepository.GetByEmail(db.users, email);
    var id := found.value.0;
    RefreshTokenRepository.DeleteAllForUser(db, id);
    var _ := UserRepository.Update(db, id, UserUpdate(None, None, None, None, Some(now)));
    r := IssueSession(db, id, found.value.1.email, now);
  }

  /** After a successful login the user holds exactly one refresh token. */
  lemma OneSessionAfterLogin(tokens: map<int, RefreshTokenModel.RefreshToken>, userId: int, email: string, now: int, t: int)
    requires t !in tokens
    ensures var after := RefreshTokenRepository.WithoutUser(tokens, userId)[t := SessionRow(userId, email, now)];
            forall k | k in after && after[k].userId == userId :: k == t
  {
  }

  /** A registered account cannot log in before its email is verified. */
  lemma UnverifiedCannotLogIn(users: map<int, User>, k: int, password: string)
    requires UniqueEmails(users)
    requires k in users && !users[k].isActive && !users[k].isDeleted && Verify(password, users[k].password)
    ensures LoginRejection(users, users[k].email, password) == Some(AccountInactive)
  {
    UserRepository.GetByEmailUnique(users, users[k].email, k);
  }

  // ---------------------------------------------------------------------------
  // refresh_tokens

  /** `refresh_tokens`: the presented token must decode, be a refresh token
      and still be stored. It is then deleted before the account is looked up,
      so it is spent even when the account is gone; on success one new refresh
      token is stored. */
  method RefreshTokens(db: Db, presented: Jwt, now: int) returns (r: Result<Session, AuthError>)
    requires db.Valid()
    modifies db
    ensures db.Valid()
    ensures db.UsersSame() && db.EventsSame() && db.TicketsSame() && db.RsvpsSame()
    ensures var checked := CheckToken(presented, "refresh", now);
            && (checked.Failure? ==> r == Failure(Token(checked.error)) && db.TokensSame())
            && (checked.Success? && RefreshTokenRepository.Get(old(db.tokens), presented).None? ==>
                  r == Failure(TokenNotFound) && db.TokensSame())
            && (checked.Success? && RefreshTokenRepository.Get(old(db.tokens), presented).Some? ==>
                  var spent := RefreshTokenRepository.WithoutToken(old(db.tokens), presented);
                  var found := UserRepository.GetByEmail(old(db.users), checked.value);
                  && (found.None? ==> r == Failure(UserNotFound) && db.tokens == spent)
                  && (found.Some? ==>
                        Issued(r, spent, old(db.nextTokenId), db.tokens, found.value.0, found.value.1.email, now)))
  {
    var checked := CheckToken(presented, "refresh", now);
    if checked.Failure? {
      return Failure(Token(checked.error));
    }
    if RefreshTokenRepository.Get(db.tokens, presented).None? {
      return Failure(TokenNotFound);
    }
    RefreshTokenRepository.Delete(db, presented);
    var found := UserRepository.GetByEmail(db.users, checked.value);
    if found.None? {
      return Failure(UserNotFound);
    }
    r := IssueSession(db, found.value.0, found.value.1.email, now);
  }

  /** After `refresh_tokens` has deleted the presented token and issued a new
      one, the presented token is stored again exactly when the new token is
      the same string. For a token issued to `e` at second `t` that is exactly
      a refresh for the same address within the same second: the token is
      signed deterministically and carries no issue time, so it comes back
      and can be spent again. Otherwise it is gone. */
  lemma SpentTokenIsGone(tokens: map<int, RefreshTokenModel.RefreshToken>, presented: Jwt,
                         r: Result<Session, AuthError>, next: int, after: map<int, RefreshTokenModel.RefreshToken>,
                         id: int, email: string, now: int)
    requires Issued(r, RefreshTokenRepository.WithoutToken(tokens, presented), next, after, id, email, now)
    ensures RefreshTokenRepository.Get(after, presented).Some? <==> r.Success? && presented == RefreshToken(email, now)
    ensures forall e, t | presented == RefreshToken(e, t) ::
              RefreshTokenRepository.Get(after, presented).Some? <==> r.Success? && e == email && t == now
  {
    var spent := RefreshTokenRepository.WithoutToken(tokens, presented);
    if r.Success? {
      assert after == spent[next := SessionRow(id, email, now)];
      if presented == RefreshToken(email, now) {
        assert after[next].token == presented;
      }
    }
    forall e, t | presented == RefreshToken(e, t)
      ensures presented == RefreshToken(email, now) <==> e == email && t == now
    {
      RefreshTokenIdentity(e, t, email, now);
    }
  }

  // ---------------------------------------------------------------------------
  // Email verification

  /** The OTP test of `verify_email` and `reset_password`: a stored, non-empty
      code equal to the one given, with an expiry not before `now` (the
      expiry instant itself is still accepted). */
  predicate OtpAccepted(stored: Option<string>, expiresAt: Option<int>, given: string, now: int)
  {
    stored.Some? && stored.value != "" && stored.value == given && expiresAt.Some? && expiresAt.value >= now
  }

  /** An empty code is never accepted, even when the stored code is empty. */
  lemma EmptyOtpRefused(stored: Option<string>, expiresAt: Option<int>, now: int)
    ensures !OtpAccepted(stored, expiresAt, "", now)
  {
  }

  /** `verify_email`. */
  method VerifyEmail(db: Db, email: string, otp: string, now: int) returns (r: Result<(), AuthError>)
    requires db.Valid()
    modifies db
    ensures db.Valid()
    ensures db.EventsSame() && db.TicketsSame() && db.RsvpsSame() && db.TokensSame()
    ensures var found := UserRepository.GetByEmail(old(db.users), email);
            && (found.None? ==> r == Failure(UserNotFound))
            && (found.Some? && found.value.1.isActive ==> r == Failure(AlreadyVerified))
            && (found.Some? && !found.value.1.isActive ==>
                  var u := found.value.1;
                  (r.Success? <==> OtpAccepted(u.emailOtp, u.emailOtpExpiresAt, otp, now))
                  && (r.Failure? ==> r == Failure(InvalidOtp))
                  && (r.Success? ==> db.users == old(db.users)[found.value.0 := UserRepository.EmailVerified(u)]))
    ensures r.Failure? ==> db.UsersSame()
  {
    var found := UserRepository.GetByEmail(db.users, email);
    if found.None? {
      return Failure(UserNotFound);
    }
    var user := found.value.1;
    if user.isActive {
      return Failure(AlreadyVerified);
    }
    if !OtpAccepted(user.emailOtp, user.emailOtpExpiresAt, otp, now) {
      return Failure(InvalidOtp);
    }
    var _ := UserRepository.VerifyEmail(db, found.value.0);
    r := Success(());
  }

  /** The resend cooldown: refused while the stored expiry is more than
      `OTP_EXPIRE_MINUTES - 2` minutes away. */
  predicate TooSoonToResend(expiresAt: Option<int>, now: int)
  {
    expiresAt.Some? && expiresAt.value > now + (OtpTtl - 2 * 60)
  }

  /** `resend_email_otp`: stores a fresh OTP valid for 10 minutes. */
  method ResendEmailOtp(db: Db, email: string, otp: string, now: int) returns (r: Result<(), AuthError>)
    requires db.Valid()
    modifies db
    ensures db.Valid()
    ensures db.EventsSame() && db.TicketsSame() && db.RsvpsSame() && db.TokensSame()
    ensures var found := UserRepository.GetByEmail(old(db.users), email);
            && (found.None? ==> r == Failure(UserNotFound))
            && (found.Some? && found.value.1.isActive ==> r == Failure(AlreadyVerified))
            && (found.Some? && !found.value.1.isActive ==>
                  var u := found.value.1;
                  (r == Failure(TooSoon) <==> TooSoonToResend(u.emailOtpExpiresAt, now))
                  && (r.Success? <==> !TooSoonToResend(u.emailOtpExpiresAt, now))
                  && (r.Success? ==>
                        db.users == old(db.users)[found.value.0 := UserRepository.WithEmailOtp(u, otp, now + OtpTtl)]))
    ensures r.Failure? ==> db.UsersSame()
  {
    var found := UserRepository.GetByEmail(db.users, email);
    if found.None? {
      return Failure(UserNotFound);
    }
    var user := found.value.1;
    if user.isActive {
      return Failure(AlreadyVerified);
    }
    if TooSoonToResend(user.emailOtpExpiresAt, now) {
      return Failure(TooSoon);
    }
    SendEmailVerificationOtp(db, found.value.0, otp, now);
    r := Success(());
  }

  /** After an OTP is sent at `sent`, a new one may be requested from two
      minutes later on, and not before. */
  lemma ResendCooldown(sent: int, now: int)
    ensures TooSoonToResend(Some(sent + OtpTtl), now) <==> now < sent + 2 * 60
  {
  }

  // ---------------------------------------------------------------------------
  // Password flows

  /** `forgot_password`: an unknown address succeeds without any change, so
      the answer does not reveal which addresses exist; an inactive account
      (unverified or deleted) is refused; otherwise a reset OTP valid for 10
      minutes is stored. */
  method ForgotPassword(db: Db, email: string, otp: string, now: int) returns (r: Result<(), AuthError>)
    requires db.Valid()
    modifies db
    ensures db.Valid()
    ensures db.EventsSame() && db.TicketsSame() && db.RsvpsSame() && db.TokensSame()
    ensures var found := UserRepository.GetByEmail(old(db.users), email);
            && (found.None? ==> r.Success? && db.UsersSame())
            && (found.Some? && !found.value.1.isActive ==> r == Failure(NotVerified) && db.UsersSame())
            && (found.Some? && found.value.1.isActive ==>
                  r.Success?
                  && db.users == old(db.users)[found.value.0 := UserRepository.WithResetOtp(found.value.1, otp, now + OtpTtl)])
  {
    var found := UserRepository.GetByEmail(db.users, email);
    if found.None? {
      return Success(());
    }
    if !found.value.1.isActive {
      return Failure(NotVerified);
    }
    var _ := UserRepository.UpdatePasswordResetOtp(db, found.value.0, otp, now + OtpTtl);
    r := Success(());
  }

  /** The guards of `reset_password`, in order: an unknown address, a code
      that is not accepted, then a new password under 8 characters. */
  function ResetRejection(users: map<int, User>, email: string, otp: string, newPassword: string, now: int)
    : (r: Option<AuthError>)
    ensures var found := UserRepository.GetByEmail(users, email);
            && (r == Some(InvalidResetRequest) <==> found.None?)
            && (r == Some(InvalidResetCode) <==>
                  found.Some? && !OtpAccepted(found.value.1.passwordResetOtp, found.value.1.passwordResetOtpExpiresAt, otp, now))
            && (r == Some(PasswordTooShort) <==>
                  found.Some? && OtpAccepted(found.value.1.passwordResetOtp, found.value.1.passwordResetOtpExpiresAt, otp, now)
                  && |newPassword| < 8)
            && (r.None? <==>
                  found.Some? && OtpAccepted(found.value.1.passwordResetOtp, found.value.1.passwordResetOtpExpiresAt, otp, now)
                  && |newPassword| >= 8)
  {
    var found := UserRepository.GetByEmail(users, email);
    if found.None? then Some(InvalidResetRequest)
    else if !OtpAccepted(found.value.1.passwordResetOtp, found.value.1.passwordResetOtpExpiresAt, otp, now) then
      Some(InvalidResetCode)
    else if |newPassword| < 8 then Some(PasswordTooShort)
    else None
  }

  /** The row after a successful reset: the new digest, and no reset code. */
  function PasswordReset(u: User, hash: PasswordHash): (r: User)
    ensures r.password == hash && r.passwordResetOtp.None? && r.passwordResetOtpExpiresAt.None?
    ensures r.email == u.email && r.isActive == u.isActive && r.isDeleted == u.isDeleted
  {
    UserRepository.ResetOtpCleared(UserRepository.WithPassword(u, hash))
  }

  /** `reset_password`: on success the new digest is stored, the reset code
      cleared and every refresh token of the user revoked. */
  method ResetPassword(db: Db, email: string, otp: string, newPassword: string, salt: int, now: int)
    returns (r: Result<(), AuthError>)
    requires db.Valid()
    modifies db
    ensures db.Valid()
    ensures db.EventsSame() && db.TicketsSame() && db.RsvpsSame()
    ensures var rejection := ResetRejection(old(db.users), email, otp, newPassword, now);
            && (rejection.Some? ==> r == Failure(rejection.value) && db.UsersSame() && db.TokensSame())
            && (rejection.None? ==>
                  var found := UserRepository.GetByEmail(old(db.users), email).value;
                  && r.Success?
                  && db.users == old(db.users)[found.0 := PasswordReset(found.1, Hash(newPassword, salt))]
                  && db.tokens == RefreshTokenRepository.WithoutUser(old(db.tokens), found.0))
  {
    var rejection := ResetRejection(db.users, email, otp, newPassword, now);
    if rejection.Some? {
      return Failure(rejection.value);
    }
    var id := UserRepository.GetByEmail(db.users, email).value.0;
    StoreResetPassword(db, id, Hash(newPassword, salt));
    RefreshTokenRepository.DeleteAllForUser(db, id);
    r := Success(());
  }

  /** The two updates of a successful reset: the digest, then the cleared
      reset code. */
  method StoreResetPassword(db: Db, id: int, hash: PasswordHash)
    requires db.Valid() && id in db.users
    modifies db
    ensures db.Valid()
    ensures db.EventsSame() && db.TicketsSame() && db.RsvpsSame() && db.TokensSame()
    ensures db.users == old(db.users)[id := PasswordReset(old(db.users)[id], hash)]
    ensures db.nextUserId == old(db.nextUserId)
  {
    var _ := UserRepository.UpdatePassword(db, id, hash);
    var _ := UserRepository.ClearPasswordResetOtp(db, id);
  }

  /** A reset code works once: after a successful reset the same code is
      refused. */
  lemma ResetCodeIsSingleUse(users: map<int, User>, email: string, otp: string, newPassword: string, salt: int, now: int)
    requires UniqueEmails(users)
    requires ResetRejection(users, email, otp, newPassword, now).None?
    ensures var found := UserRepository.GetByEmail(users, email).value;
            var after := users[found.0 := PasswordReset(found.1, Hash(newPassword, salt))];
            ResetRejection(after, email, otp, newPassword, now) == Some(InvalidResetCode)
  {
    var found := UserRepository.GetByEmail(users, email).value;
    var row := PasswordReset(found.1, Hash(newPassword, salt));
    SameEmailKeepsUnique(users, found.0, row);
    UserRepository.GetByEmailUnique(users[found.0 := row], email, found.0);
  }

  /** `change_password`: the current password must verify, the new one must
      have 8 characters or more and differ from the current one; on success
      every refresh token of the user is revoked. */
  method ChangePassword(db: Db, userId: int, current: string, newPassword: string, salt: int)
    returns (r: Result<(), AuthError>)
    requires db.Valid()
    modifies db
    ensures db.Valid()
    ensures db.EventsSame() && db.TicketsSame() && db.RsvpsSame()
    ensures userId !in old(db.users) ==> r == Failure(UserNotFound)
    ensures userId in old(db.users) ==>
              var u := old(db.users)[userId];
              && (r == Failure(WrongPassword) <==> !Verify(current, u.password))
              && (r == Failure(PasswordTooShort) <==> Verify(current, u.password) && |newPassword| < 8)
              && (r == Failure(SamePassword) <==> Verify(current, u.password) && |newPassword| >= 8 && current == newPassword)
              && (r.Success? <==> Verify(current, u.password) && |newPassword| >= 8 && current != newPassword)
              && (r.Success? ==>
                    && db.users == old(db.users)[userId := UserRepository.WithPassword(u, Hash(newPassword, salt))]
                    && db.tokens == RefreshTokenRepository.WithoutUser(old(db.tokens), userId))
    ensures r.Failure? ==> db.UsersSame() && db.TokensSame()
  {
    var user := UserRepository.GetById(db.users, userId);
    if user.None? {
      return Failure(UserNotFound);
    }
    if !Verify(current, user.value.password) {
      return Failure(WrongPassword);
    }
    if |newPassword| < 8 {
      return Failure(PasswordTooShort);
    }
    if current == newPassword {
      return Failure(SamePassword);
    }
    var _ := UserRepository.UpdatePassword(db, userId, Hash(newPassword, salt));
    RefreshTokenRepository.DeleteAllForUser(db, userId);
    r := Success(());
  }

  /** After a password change the old password no longer verifies. */
  lemma OldPasswordStopsWorking(u: User, current: string, newPassword: string, salt: int)
    requires current != newPassword
    ensures !Verify(current, UserRepository.WithPassword(u, Hash(newPassword, salt)).password)
    ensures Verify(newPassword, UserRepository.WithPassword(u, Hash(newPassword, salt)).password)
  {
  }

  /** `delete_account`: a soft delete that also revokes every refresh token. */
  method DeleteAccount(db: Db, userId: int, now: int) returns (r: Result<(), AuthError>)
    requires db.Valid()
    modifies db
    ensures db.Valid()
    ensures db.EventsSame() && db.TicketsSame() && db.RsvpsSame()
    ensures r.Failure? <==> userId !in old(db.users)
    ensures r.Failure? ==> r.error == UserNotFound && db.UsersSame() && db.TokensSame()
    ensures r.Success? ==>
              && db.users == old(db.users)[userId := UserRepository.Deactivated(old(db.users)[userId], now)]
              && db.tokens == RefreshTokenRepository.WithoutUser(old(db.tokens), userId)
  {
    var user := UserRepository.GetById(db.users, userId);
    if user.None? {
      return Failure(UserNotFound);
    }
    var _ := UserRepository.DeactivateUser(db, userId, now);
    RefreshTokenRepository.DeleteAllForUser(db, userId);
    r := Success(());
  }

  /** A deleted account is refused at login, even with the right password. */
  lemma DeletedCannotLogIn(users: map<int, User>, k: int, password: string, now: int)
    requires UniqueEmails(users)
    requires k in users && Verify(password, users[k].password)
    ensures var after := users[k := UserRepository.Deactivated(users[k], now)];
            LoginRejection(after, users[k].email, password) == Some(AccountDeleted)
  {
    SameEmailKeepsUnique(users, k, UserRepository.Deactivated(users[k], now));
    UserRepository.GetByEmailUnique(users[k := UserRepository.Deactivated(users[k], now)], users[k].email, k);
  }
}
