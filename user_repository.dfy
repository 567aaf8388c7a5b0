/** `UserRepository`: the statements issued against the `users` table. Every
    single-row `UPDATE` reports whether a row matched; none changes `email`,
    so the unique-email constraint is only at stake in `create`. */
module UserRepository {
  import opened Wrappers
  import opened Tables
  import opened Crypto
  import opened UserModel
  import opened Database

  /** `create`: inserts the row; the `UNIQUE` index on `email` rejects a second
      account with the same (already lowercased) address. */
  method Create(db: Db, user: User) returns (r: Result<int, DbError>)
    requires db.Valid()
    modifies db
    ensures db.Valid()
    ensures db.EventsSame() && db.TicketsSame() && db.RsvpsSame() && db.TokensSame()
    ensures r.Failure? <==> exists k | k in old(db.users) :: old(db.users)[k].email == user.email
    ensures r.Failure? ==> r.error == UniqueViolation && db.UsersSame()
    ensures r.Success? ==>
              && r.value == old(db.nextUserId) && r.value !in old(db.users)
              && db.users == old(db.users)[r.value := user]
  {
    if exists k | k in db.users :: db.users[k].email == user.email {
      return Failure(UniqueViolation);
    }
    var id := db.nextUserId;
    db.users := db.users[id := user];
    db.nextUserId := id + 1;
    r := Success(id);
  }

  /** `get_by_id`. */
  function GetById(users: map<int, User>, id: int): (r: Option<User>)
    ensures r.Some? <==> id in users
    ensures r.Some? ==> r.value == users[id]
  {
    if id in users then Some(users[id]) else None
  }

  predicate HasEmail(email: string, u: User) { u.email == email }

  /** `get_by_email`: an exact, case-sensitive comparison with the stored
      address. */
  function GetByEmail(users: map<int, User>, email: string): (r: Option<(int, User)>)
    ensures r.None? <==> forall k | k in users :: users[k].email != email
    ensures r.Some? ==> r.value.0 in users && r.value.1 == users[r.value.0] && r.value.1.email == email
  {
    var rows := Where(users, u => HasEmail(email, u));
    if rows == [] then None
    else
      assert rows[0] in rows;
      Some(rows[0])
  }

  /** Under the unique-email constraint the account found by address is the
      only one with that address. */
  lemma GetByEmailUnique(users: map<int, User>, email: string, k: int)
    requires UniqueEmails(users)
    requires k in users && users[k].email == email
    ensures GetByEmail(users, email) == Some((k, users[k]))
  {
  }

  /** `update`: `None` for a missing user; otherwise the supplied fields
      overwrite the stored ones. */
  method Update(db: Db, id: int, data: UserUpdate) returns (r: Option<User>)
    requires db.Valid()
    modifies db
    ensures db.Valid()
    ensures db.EventsSame() && db.TicketsSame() && db.RsvpsSame() && db.TokensSame()
    ensures id !in old(db.users) ==> r.None? && db.UsersSame()
    ensures id in old(db.users) ==>
              && r == Some(PatchUser(old(db.users)[id], data))
              && db.users == old(db.users)[id := r.value]
              && db.nextUserId == old(db.nextUserId)
  {
    if id !in db.users {
      return None;
    }
    var u := PatchUser(db.users[id], data);
    db.users := db.users[id := u];
    r := Some(u);
  }

  // ---------------------------------------------------------------------------
  // Single-column updates.

  /** The row changes of the `UPDATE ... SET` statements below. */
  function Activated(u: User): User { u.(isActive := true, isDeleted := false) }
  function Deactivated(u: User, now: int): User { u.(isActive := false, isDeleted := true, deletedAt := Some(now)) }
  function WithEmailOtp(u: User, otp: string, expiresAt: int): User
  {
    u.(emailOtp := Some(otp), emailOtpExpiresAt := Some(expiresAt))
  }
  function EmailVerified(u: User): User { u.(isActive := true, emailOtp := None, emailOtpExpiresAt := None) }
  function WithResetOtp(u: User, otp: string, expiresAt: int): User
  {
    u.(passwordResetOtp := Some(otp), passwordResetOtpExpiresAt := Some(expiresAt))
  }
  function ResetOtpCleared(u: User): User { u.(passwordResetOtp := None, passwordResetOtpExpiresAt := None) }
  function WithPassword(u: User, hash: PasswordHash): User { u.(password := hash) }

  /** One `UPDATE users SET ... WHERE id = :id` applying `change`; true iff the
      row exists. */
  method SetRow(db: Db, id: int, change: User -> User) returns (ok: bool)
    requires db.Valid()
    requires forall u :: change(u).email == u.email
    modifies db
    ensures db.Valid()
    ensures db.EventsSame() && db.TicketsSame() && db.RsvpsSame() && db.TokensSame()
    ensures ok <==> id in old(db.users)
    ensures !ok ==> db.UsersSame()
    ensures ok ==> db.users == old(db.users)[id := change(old(db.users)[id])] && db.nextUserId == old(db.nextUserId)
  {
    ok := id in db.users;
    if ok {
      db.users := db.users[id := change(db.users[id])];
    }
  }

  /** `activate_user`: active and no longer soft-deleted. */
  method ActivateUser(db: Db, id: int) returns (ok: bool)
    requires db.Valid()
    modifies db
    ensures db.Valid()
    ensures db.EventsSame() && db.TicketsSame() && db.RsvpsSame() && db.TokensSame()
    ensures ok <==> id in old(db.users)
    ensures !ok ==> db.UsersSame()
    ensures ok ==> db.users == old(db.users)[id := Activated(old(db.users)[id])] && db.nextUserId == old(db.nextUserId)
  {
    ok := SetRow(db, id, Activated);
  }

  /** `deactivate_user`: inactive, soft-deleted, with the deletion time. */
  method DeactivateUser(db: Db, id: int, now: int) returns (ok: bool)
    requires db.Valid()
    modifies db
    ensures db.Valid()
    ensures db.EventsSame() && db.TicketsSame() && db.RsvpsSame() && db.TokensSame()
    ensures ok <==> id in old(db.users)
    ensures !ok ==> db.UsersSame()
    ensures ok ==> db.users == old(db.users)[id := Deactivated(old(db.users)[id], now)] && db.nextUserId == old(db.nextUserId)
  {
    ok := SetRow(db, id, u => Deactivated(u, now));
  }

  /** `update_email_otp`. */
  method UpdateEmailOtp(db: Db, id: int, otp: string, expiresAt: int) returns (ok: bool)
    requires db.Valid()
    modifies db
    ensures db.Valid()
    ensures db.EventsSame() && db.TicketsSame() && db.RsvpsSame() && db.TokensSame()
    ensures ok <==> id in old(db.users)
    ensures !ok ==> db.UsersSame()
    ensures ok ==> db.users == old(db.users)[id := WithEmailOtp(old(db.users)[id], otp, expiresAt)]
                   && db.nextUserId == old(db.nextUserId)
  {
    ok := SetRow(db, id, u => WithEmailOtp(u, otp, expiresAt));
  }

  /** `verify_email`: activates the account and clears the email OTP. */
  method VerifyEmail(db: Db, id: int) returns (ok: bool)
    requires db.Valid()
    modifies db
    ensures db.Valid()
    ensures db.EventsSame() && db.TicketsSame() && db.RsvpsSame() && db.TokensSame()
    ensures ok <==> id in old(db.users)
    ensures !ok ==> db.UsersSame()
    ensures ok ==> db.users == old(db.users)[id := EmailVerified(old(db.users)[id])] && db.nextUserId == old(db.nextUserId)
  {
    ok := SetRow(db, id, EmailVerified);
  }

  /** `update_password_reset_otp`. */
  method UpdatePasswordResetOtp(db: Db, id: int, otp: string, expiresAt: int) returns (ok: bool)
    requires db.Valid()
    modifies db
    ensures db.Valid()
    ensures db.EventsSame() && db.TicketsSame() && db.RsvpsSame() && db.TokensSame()
    ensures ok <==> id in old(db.users)
    ensures !ok ==> db.UsersSame()
    ensures ok ==> db.users == old(db.users)[id := WithResetOtp(old(db.users)[id], otp, expiresAt)]
                   && db.nextUserId == old(db.nextUserId)
  {
    ok := SetRow(db, id, u => WithResetOtp(u, otp, expiresAt));
  }

  /** `clear_password_reset_otp`. */
  method ClearPasswordResetOtp(db: Db, id: int) returns (ok: bool)
    requires db.Valid()
    modifies db
    ensures db.Valid()
    ensures db.EventsSame() && db.TicketsSame() && db.RsvpsSame() && db.TokensSame()
    ensures ok <==> id in old(db.users)
    ensures !ok ==> db.UsersSame()
    ensures ok ==> db.users == old(db.users)[id := ResetOtpCleared(old(db.users)[id])] && db.nextUserId == old(db.nextUserId)
  {
    ok := SetRow(db, id, ResetOtpCleared);
  }

  /** `update_password`: stores the new digest. */
  method UpdatePassword(db: Db, id: int, hash: PasswordHash) returns (ok: bool)
    requires db.Valid()
    modifies db
    ensures db.Valid()
    ensures db.EventsSame() && db.TicketsSame() && db.RsvpsSame() && db.TokensSame()
    ensures ok <==> id in old(db.users)
    ensures !ok ==> db.UsersSame()
    ensures ok ==> db.users == old(db.users)[id := WithPassword(old(db.users)[id], hash)] && db.nextUserId == old(db.nextUserId)
  {
    ok := SetRow(db, id, u => WithPassword(u, hash));
  }

  // ---------------------------------------------------------------------------
  // How the row changes relate.

  /** Reactivating a deactivated account restores its flags but keeps the
      deletion time: `activate_user` does not reset `deleted_at`. */
  lemma ReactivateKeepsDeletedAt(u: User, now: int)
    ensures var r := Activated(Deactivated(u, now));
            r.isActive && !r.isDeleted && r.deletedAt == Some(now)
            && r == u.(isActive := true, isDeleted := false, deletedAt := Some(now))
  {
  }

  /** Verifying the email leaves an active account without a pending email
      OTP, whatever OTP was stored before. */
  lemma VerifyClearsOtp(u: User, otp: string, expiresAt: int)
    ensures EmailVerified(WithEmailOtp(u, otp, expiresAt)) == EmailVerified(u)
    ensures EmailVerified(u).isActive && EmailVerified(u).emailOtp.None?
  {
  }

  /** Clearing the reset OTP undoes storing one on an account that had none. */
  lemma ClearUndoesResetOtp(u: User, otp: string, expiresAt: int)
    requires u.passwordResetOtp.None? && u.passwordResetOtpExpiresAt.None?
    ensures ResetOtpCleared(WithResetOtp(u, otp, expiresAt)) == u
  {
  }

  /** After a password update only the new password verifies. */
  lemma NewPasswordVerifies(u: User, password: string, salt: int, other: string)
    ensures Verify(password, WithPassword(u, Hash(password, salt)).password)
    ensures Verify(other, WithPassword(u, Hash(password, salt)).password) ==> other == password
  {
  }
}
