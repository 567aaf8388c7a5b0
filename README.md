# eventRSVP backend — a Dafny model

A model of the backend of eventRSVP. The backend is a GraphQL service in which organizers publish events and sell (or give away) tickets. Attendees RSVP for an event with a ticket, receive a QR code for check-in, and can cancel. Accounts go through registration, e-mail verification with a one-time code, login with JWT access and refresh tokens, and password reset and change.

The model covers three parts:

- **The RSVP and ticket allocation engine.**
  - `RsvpService` books, checks in and cancels.
  - `EventService` creates events (with a default free ticket), edits them and lists them.
  - The event, ticket and RSVP repositories sit underneath.
- **The account and credential state machine.**
  - `AuthService` covers registration, login, refresh, OTP verification and resend, and the password flows.
  - It works over the user and refresh-token repositories.
- **Pure validators.**
  - The QR check-in payload (`QrService`).
  - The e-mail and password validators of the ORM model (`UserModel`) and of the request schema (`UserSchema`).
  - The three permission classes (`AuthPermissions`).

The whole PostgreSQL session is one object, `Database.Db`. It holds one map per table (primary key to row) and the next value of each id sequence. `Db.Valid()` states the schema's constraints:

- ids are positive and below their sequence;
- `users.email` and `refresh_tokens.token` are unique;
- every foreign key points at an existing row.

Repository operations are methods that modify `db`, one committed statement each. A violated constraint is returned as `DbError` (the `IntegrityError` the commit raises), not excluded by a precondition. Deletes cascade as the `ON DELETE CASCADE` foreign keys do. Queries are functions over the maps.

Each service method that writes states its whole outcome:

- which error it returns for which stored state, and that it succeeds exactly when every guard passes;
- the exact new contents of every table it touches;
- that every other table is unchanged.

Each listing states which rows it returns (every matching row, each once, or the exact page of them), in which order, and what each view holds.

The checks that guard a service call are stated once, as a pure function: `CreateRejection`, `LoginRejection`, `ResetRejection`. The method returns exactly the error that function names and changes nothing when it names one.

The model keeps the source's own behaviour, including where it falls short of what its messages suggest:

- the duplicate-RSVP check also matches a cancelled RSVP, so a user who cancelled can never RSVP to that event again (`RsvpService.CancelledRsvpBlocksRebooking`);
- check-in accepts CANCELLED and NO_SHOW RSVPs;
- cancelling an already cancelled RSVP succeeds and releases a ticket again (`RsvpService.CancelTwice`);
- a refresh token is signed deterministically and carries no issue time, so refreshing it within the second it was issued stores the identical token again, and the token just spent works once more (`AuthService.SpentTokenIsGone`);
- the sold count is raised without a capacity guard (`TicketRepository.IncrementSoldCount`).

In a sequential run, `CreateRsvp` keeps every ticket within capacity, because of the sold-out check before it.

Time is an integer number of seconds, passed in as `now`. The random OTP and the bcrypt salt are parameters too. bcrypt is idealised as an injective hash with `Verify(p, Hash(p, salt))`; its 72-byte limit is not modelled. A JWT is a datatype of signed claims, so decoding a token the service issued gives back its claims.

## Model

| member | source | states |
|---|---|---|
| `Database.TicketsOutside` | backend/models/ticket_model.py:36-38 | the tickets that survive deleting a set of events are exactly those whose event is not deleted, unchanged |
| `Database.RsvpsWithin` | backend/models/rsvp_model.py:22-30 | the RSVPs that survive a cascade are exactly those whose event and ticket still exist, unchanged |
| `AuthPermissions.IsAuthenticated` | backend/permissions/auth_permissions.py:12-16 | holds exactly when there is a current user |
| `AuthPermissions.IsAdmin` | backend/permissions/auth_permissions.py:22-29 | holds exactly when there is a current user whose role is ADMIN |
| `AuthPermissions.IsOrganizer` | backend/permissions/auth_permissions.py:35-42 | holds exactly when there is a current user whose role is ORGANIZER |
| `AuthPermissions.RoleChecksExclude` | backend/permissions/auth_permissions.py:19-42 | no context passes both the admin and the organizer check; passing either implies passing the authentication check |
| `AuthPermissions.AttendeePassesOnlyAuthentication` | backend/permissions/auth_permissions.py:9-42 | an ATTENDEE passes the authentication check and neither role check |
| `Crypto.Hash` | backend/services/auth_service.py:30-36 | the password a digest was made from verifies against it, and no other password does |
| `Crypto.Verify` | backend/services/auth_service.py:31-32 | a password verifies against a digest exactly when the digest was made from it (the injective idealisation of bcrypt) |
| `AuthTokens.AccessToken` | backend/services/auth_service.py:70-75 | a signed token whose claims are exactly `sub` = the email, `type` = "access" and `exp` = now + 30 minutes (backend/core/config.py:20) |
| `AuthTokens.RefreshToken` | backend/services/auth_service.py:77-86 | a signed token whose claims are exactly `sub` = the email, `type` = "refresh" and `exp` = now + 7 days (backend/core/config.py:21) |
| `AuthTokens.DecodeToken` | backend/services/auth_service.py:50-57 | an unsigned token is invalid; a decoded token is signed and yields its claims; expired exactly when the `exp` claim is an integer before now |
| `AuthTokens.ValidateTokenPayload` | backend/services/auth_service.py:59-68 | succeeds exactly when `type` is the expected kind and `sub` is a string, and then returns `sub`; a wrong or missing `type` is reported before a bad subject |
| `AuthTokens.CheckToken` | backend/services/auth_service.py:147-153 | success only for a signed token whose claims pass the payload validation, with the same result |
| `AuthTokens.RefreshTokenRoundTrip` | backend/services/auth_service.py:146-153 | a refresh token issued at t is accepted as a refresh token until t + 7 days, giving back its email, and is expired afterwards |
| `AuthTokens.AccessTokenRoundTrip` | backend/services/auth_service.py:184-187 | an access token issued at t is accepted as an access token until t + 30 minutes, giving back its email, and is expired afterwards |
| `AuthTokens.KindsAreNotInterchangeable` | backend/services/auth_service.py:63-64 | an unexpired access token is rejected where a refresh token is expected, and the other way round |
| `AuthTokens.RefreshTokenIdentity` | backend/services/auth_service.py:77-86 | two refresh tokens are equal exactly when they carry the same email and were issued in the same second |
| `AuthService.RegisteredUser` | backend/services/auth_service.py:94-101 | the row to insert exists exactly when the schema's and then the model's e-mail validators accept (pydantic's `EmailStr` check before them is not modelled); its email is lower-cased, its password is the digest of the given one, it is inactive, an ATTENDEE and has no OTP |
| `AuthService.Register` | backend/services/auth_service.py:89-104 | an existing account with that exact email is rejected with nothing changed; a validator failure is returned with nothing changed; otherwise one new user row with a fresh id and a verification OTP valid for 10 minutes, unless the lower-cased address hits the unique index |
| `AuthService.Enroll` | backend/services/auth_service.py:102-103 | the insert fails, changing nothing, exactly when the email is already stored; otherwise the new row under the next id carries the verification OTP |
| `AuthService.SendEmailVerificationOtp` | backend/services/auth_service.py:201-211 | only that user's email OTP and its expiry (now + 10 minutes) change |
| `AuthService.MixedCaseDuplicateReachesTheIndex` | backend/services/auth_service.py:90-102 | a mixed-case address whose lower-cased form is stored is missed by the exact-match duplicate lookup but found under its lower-cased form |
| `AuthService.LoginRejection` | backend/services/auth_service.py:108-120 | an unknown email and a wrong password give the same error; then a deleted account is rejected, then an inactive one; otherwise no rejection |
| `AuthService.IssueSession` | backend/services/auth_service.py:127-130 | returns the access and refresh tokens of the email at now and stores exactly one new token row under the next id, unless the identical token is already stored |
| `AuthService.Login` | backend/services/auth_service.py:107-143 | a rejection changes nothing; otherwise all the user's refresh tokens are deleted, `last_login` becomes now, and exactly one new token row is stored |
| `AuthService.OneSessionAfterLogin` | backend/services/auth_service.py:122-130 | after a login the user owns exactly one refresh-token row |
| `AuthService.UnverifiedCannotLogIn` | backend/services/auth_service.py:119-120 | a registered, never-verified account with the right password is refused as inactive |
| `AuthService.RefreshTokens` | backend/services/auth_service.py:146-181 | a token failing decoding or validation, or not stored, is rejected with the store unchanged; otherwise the presented token is deleted first, then either the user is missing or exactly one new session token is stored |
| `AuthService.SpentTokenIsGone` | backend/services/auth_service.py:155-168 | after a refresh the presented token is stored again exactly when the reissued token is the same string: for a token issued to an address at second t, exactly when it is refreshed for the same address within second t; otherwise it is gone |
| `AuthService.OtpAccepted` | backend/services/auth_service.py:225-230 | a code is accepted exactly when a non-empty code is stored, equals the one given, and its expiry is present and not before now |
| `AuthService.EmptyOtpRefused` | backend/services/auth_service.py:225-231 | an empty OTP is never accepted |
| `AuthService.VerifyEmail` | backend/services/auth_service.py:214-237 | rejects an unknown user, then an already active one, then a missing, different or expired OTP; otherwise the user becomes active and both OTP fields are cleared |
| `AuthService.ResendEmailOtp` | backend/services/auth_service.py:240-255 | rejects an unknown user, an active one, and a request while the current expiry is later than now + 8 minutes; otherwise a new OTP valid for 10 minutes is stored |
| `AuthService.ResendCooldown` | backend/services/auth_service.py:249-252 | a code sent at t blocks a resend exactly until t + 2 minutes |
| `AuthService.TooSoonToResend` | backend/services/auth_service.py:249-252 | a resend is refused while the stored expiry lies more than `OTP_EXPIRE_MINUTES - 2` minutes ahead of now; no expiry never blocks |
| `AuthService.ForgotPassword` | backend/services/auth_service.py:258-276 | an unknown email succeeds with nothing changed; an inactive account is rejected; otherwise a reset OTP valid for 10 minutes is stored on that user only |
| `AuthService.ResetRejection` | backend/services/auth_service.py:281-295 | rejects an unknown email, then a missing, different or expired reset OTP, and only then a new password shorter than 8 characters |
| `AuthService.PasswordReset` | backend/services/auth_service.py:297-300 | the new digest is stored, both reset-OTP fields are cleared, and email and account flags are kept |
| `AuthService.ResetPassword` | backend/services/auth_service.py:279-306 | a rejection changes nothing; otherwise the password is replaced, the reset OTP cleared and all the user's refresh tokens deleted |
| `AuthService.StoreResetPassword` | backend/services/auth_service.py:297-300 | only that user's password and reset-OTP fields change |
| `AuthService.ResetCodeIsSingleUse` | backend/services/auth_service.py:286-300 | after a successful reset the same code is rejected |
| `AuthService.ChangePassword` | backend/services/auth_service.py:309-329 | rejects an unknown user, then a wrong current password, then a new password under 8 characters, then one equal to the current; otherwise the password is replaced and all the user's refresh tokens deleted |
| `AuthService.OldPasswordStopsWorking` | backend/services/auth_service.py:324-325 | after a change the old password no longer verifies and the new one does |
| `AuthService.DeleteAccount` | backend/services/auth_service.py:332-351 | an unknown user is rejected; otherwise the account is deactivated and soft-deleted at now and all its refresh tokens are deleted |
| `AuthService.DeletedCannotLogIn` | backend/services/auth_service.py:114-117 | after a deletion, login with the right password is refused as deleted |
| `EmailPattern.ShapeMatchesIff` | backend/models/user_model.py:57 | the scanning matcher accepts exactly the addresses that split as the pattern describes |
| `EmailPattern.MatchesIff` | backend/models/user_model.py:57-58 | the executable matcher accepts exactly the strings the regular expression accepts with `re.match` |
| `EmailPattern.DomainOfShaped` | backend/models/user_model.py:67 | for an accepted address, the text after the single `@` is the domain |
| `EmailPattern.ShapedLower` | backend/models/user_model.py:71 | lower-casing an accepted address keeps it accepted with the same split |
| `EmailPattern.TrailingNewlineAccepted` | backend/schemas/user_schema.py:26-28 | `$` also matches before a final newline, so an address ending in "\n" is accepted |
| `Text.Lower` | backend/models/user_model.py:71 | same length; each ASCII capital becomes its lower-case letter and every other character is kept |
| `Text.ILikeContains` | backend/repository/event_repository.py:55-59 | `ILIKE '%term%'` with a term free of `%`, `_` and `\` holds exactly when the lower-cased term occurs in the lower-cased text |
| `UserSchema.ValidateEmail` | backend/schemas/user_schema.py:21-36 | accepts exactly the addresses the regex accepts whose domain, compared as written, is not disposable; returns the address lower-cased |
| `UserSchema.ValidatePassword` | backend/schemas/user_schema.py:42-69 | six rejections in source order, each an if-and-only-if: no capital, no lowercase letter, no digit, a weak substring, then the non-empty email and then the non-empty first name occurring case-insensitively in it (skipped when the field is missing or empty); accepted exactly when none applies, and returned unchanged |
| `UserSchema.PasswordReadsOnlyEmailAndFirstName` | backend/schemas/user_schema.py:60-67 | the outcome depends on `info.data` only through "email" and "first_name" |
| `UserModel.NewUser` | backend/repository/user_repository.py:13-19 | the inserted row carries the given email, digest and active flag, no OTPs, and is not deleted |
| `UserModel.PatchUser` | backend/repository/user_repository.py:53-55 | only the supplied fields change; email, password, OTPs and the deleted flag are never touched |
| `UserModel.PatchIdempotent` | backend/repository/user_repository.py:53-55 | applying the same update twice is applying it once |
| `UserModel.ValidateEmail` | backend/models/user_model.py:54-71 | accepts exactly the addresses the regex accepts whose lower-cased domain is not disposable; returns the address lower-cased |
| `UserModel.ValidatePassword` | backend/models/user_model.py:73-97 | six rejections in source order, each an if-and-only-if: no capital, no lowercase letter, no digit, a weak substring, the non-empty email contained in it, the non-empty name contained in it; accepted exactly when none applies, and returned unchanged |
| `UserModel.ModelEmailStricterThanSchema` | backend/models/user_model.py:62-71 | an address the model validator accepts is accepted by the schema validator with the same result |
| `UserModel.SchemaDomainCheckIsCaseSensitive` | backend/schemas/user_schema.py:31-36 | "ann@Example.com" passes the schema validator as "ann@example.com" |
| `UserModel.ModelDomainCheckIgnoresCase` | backend/models/user_model.py:62-69 | the same address is refused by the model validator as disposable |
| `UserRepository.Create` | backend/repository/user_repository.py:13-19 | fails with a unique violation, changing nothing, exactly when the email is stored; otherwise adds the row under the next id |
| `UserRepository.GetById` | backend/repository/user_repository.py:22-26 | the row with that id, or none when there is none |
| `UserRepository.GetByEmail` | backend/repository/user_repository.py:29-33 | a stored row with exactly that email, or none when no row has it |
| `UserRepository.GetByEmailUnique` | backend/models/user_model.py:25 | with unique emails, the lookup finds the one row holding the address |
| `UserRepository.Update` | backend/repository/user_repository.py:43-59 | a missing user gives none and no change; otherwise only the supplied fields of that row change |
| `UserRepository.ActivateUser` | backend/repository/user_repository.py:78-87 | true exactly when the user exists; only `is_active` := true and `is_deleted` := false change |
| `UserRepository.DeactivateUser` | backend/repository/user_repository.py:90-103 | true exactly when the user exists; only `is_active` := false, `is_deleted` := true and `deleted_at` := now change |
| `UserRepository.UpdateEmailOtp` | backend/repository/user_repository.py:106-116 | true exactly when the user exists; only both email-OTP fields are set |
| `UserRepository.VerifyEmail` | backend/repository/user_repository.py:119-133 | true exactly when the user exists; only `is_active` := true and both email-OTP fields cleared |
| `UserRepository.UpdatePasswordResetOtp` | backend/repository/user_repository.py:136-150 | true exactly when the user exists; only both reset-OTP fields are set |
| `UserRepository.ClearPasswordResetOtp` | backend/repository/user_repository.py:153-163 | true exactly when the user exists; only both reset-OTP fields are cleared |
| `UserRepository.UpdatePassword` | backend/repository/user_repository.py:166-176 | true exactly when the user exists; only the password changes |
| `UserRepository.ReactivateKeepsDeletedAt` | backend/repository/user_repository.py:78-103 | reactivating a deleted account restores both flags but keeps `deleted_at` |
| `UserRepository.VerifyClearsOtp` | backend/repository/user_repository.py:119-133 | verification erases whatever email OTP was stored |
| `UserRepository.ClearUndoesResetOtp` | backend/repository/user_repository.py:136-163 | clearing after setting a reset OTP restores the row |
| `UserRepository.NewPasswordVerifies` | backend/repository/user_repository.py:166-176 | after storing a new digest, exactly the new password verifies |
| `RefreshTokenRepository.Create` | backend/repository/refresh_token_repository.py:10-16 | fails on a duplicate token (unique) or an unknown user (foreign key) with nothing changed; otherwise adds exactly one row under the next id |
| `RefreshTokenRepository.Get` | backend/repository/refresh_token_repository.py:19-24 | a stored row with exactly that token, or none when no row has it |
| `RefreshTokenRepository.Delete` | backend/repository/refresh_token_repository.py:27-32 | removes exactly the rows with that token |
| `RefreshTokenRepository.DeleteAllForUser` | backend/repository/refresh_token_repository.py:35-40 | removes exactly the user's rows |
| `RefreshTokenRepository.DeletionsForget` | backend/repository/refresh_token_repository.py:27-60 | after deleting a user's tokens none of theirs is active; after deleting a token it is not found |
| `RefreshTokenRepository.ActiveTokenForUser` | backend/repository/refresh_token_repository.py:43-60 | none when the user has no unexpired row; an error when there is more than one; otherwise that row |
| `QrService.DecimalRoundTrip` | backend/services/qr_service.py:27 | reading back the decimal text of a natural number gives the number |
| `QrService.PayloadTextInjective` | backend/services/qr_service.py:17-27 | different id pairs give different encoded payloads |
| `QrService.GenerateRsvpQr` | backend/services/qr_service.py:12-39 | fails exactly when either id is not positive; otherwise encodes exactly `{"user_id","event_id","type":"rsvp_checkin"}` |
| `QrService.DecodeQrData` | backend/services/qr_service.py:42-54 | empty unless the text is non-empty and parses to an object with "type", in which case the parsed object is returned unchanged |
| `QrService.IsPositiveInt` | backend/services/qr_service.py:64-68 | `isinstance(v, int) and v > 0` with Python's reading of JSON booleans as the integers 0 and 1 |
| `QrService.ValidateRsvpQrData` | backend/services/qr_service.py:56-69 | an object with "user_id", "event_id" and "type", the type exactly "rsvp_checkin" and both ids positive integers |
| `QrService.PayloadValidatesIffGenerated` | backend/services/qr_service.py:57-69 | the payload of an id pair validates exactly when generation accepts that pair |
| `QrService.DecodeGenerated` | backend/services/qr_service.py:17-54 | provided `json.loads` parses the compact payload text back into the payload dictionary, decoding a generated code gives back that payload, which validates |
| `QrService.BooleanIdsAccepted` | backend/services/qr_service.py:65-68 | JSON `true` passes as a positive integer id and `false` fails |
| `QrService.ValidatedDecodeIsParsedObject` | backend/services/qr_service.py:42-69 | a decoded result that validates came from a non-empty text that parses to exactly that object |
| `EventModel.CategoryFromValue` | backend/schemas/event_schema.py:14-22 | a member found for a string has that string as its value |
| `EventModel.CategoryRoundTrip` | backend/schemas/event_schema.py:14-22 | every member is found again from its value |
| `EventModel.CategoryFromValueIff` | backend/repository/event_repository.py:48 | the lookup gives a member exactly for that member's value |
| `EventModel.NewEvent` | backend/models/event_model.py:45-53 | the inserted row keeps the supplied status and organizer and is not deleted |
| `EventModel.PatchEvent` | backend/repository/event_repository.py:87-89 | organizer and deleted flag are never changed; the status changes only when supplied |
| `EventModel.PatchNothing` | backend/repository/event_repository.py:87-89 | an update with no field set changes nothing |
| `EventModel.PatchIdempotent` | backend/repository/event_repository.py:87-89 | applying the same update twice is applying it once |
| `EventModel.PatchKeepsNullablesSet` | backend/repository/event_repository.py:88 | a nullable column that holds a value never returns to NULL through an update |
| `EventRepository.Create` | backend/repository/event_repository.py:19-25 | fails with a foreign-key violation, changing nothing, exactly when the organizer does not exist; otherwise adds the row under the next id |
| `EventRepository.Update` | backend/repository/event_repository.py:78-94 | a missing event gives none and no change; otherwise only the supplied fields of that row change |
| `EventRepository.Delete` | backend/repository/event_repository.py:97-102 | true exactly when the row existed; removes it with its tickets and the RSVPs of both |
| `EventRepository.UpdateStatus` | backend/repository/event_repository.py:105-114 | true exactly when the event exists; only its status changes |
| `EventRepository.GetById` | backend/repository/event_repository.py:28-32 | the row with that id, or none |
| `EventRepository.CategoryFilter` | backend/repository/event_repository.py:46-51 | no filter without a category or for an unknown one; otherwise the member whose value is the lower-cased string |
| `EventRepository.SearchPattern` | backend/repository/event_repository.py:54-55 | no filter without a search term; otherwise `%` + lower-cased term + `%` |
| `EventRepository.Listed` | backend/repository/event_repository.py:43-60 | the `WHERE` clause: the status asked for, not soft-deleted, the category when one is given, and an `ILIKE` match of title, description or location when a pattern is given |
| `EventRepository.Selected` | backend/repository/event_repository.py:43-60 | `Listed` with the category text turned into an enum filter and the search text into `%term%` |
| `EventRepository.Matching` | backend/repository/event_repository.py:43-62 | exactly the undeleted events with the status that pass the category and search filters, by start date ascending |
| `EventRepository.GetAll` | backend/repository/event_repository.py:35-64 | only matching events, by start date ascending; row `i` is row `skip + i` of all matching events (`EventRepository.Matching`); the exact page length, at most `limit` |
| `EventRepository.FirstPageComplete` | backend/repository/event_repository.py:62 | a first page shorter than the limit holds every matching event |
| `EventRepository.SearchIsSubstring` | backend/repository/event_repository.py:54-60 | for a term free of `%`, `_` and `\`, an event matches exactly when the term occurs case-insensitively in its title, description or location |
| `EventRepository.GetByOrganizer` | backend/repository/event_repository.py:67-75 | exactly the organizer's events, each id once, newest `created_at` first |
| `EventRepository.AttendeeCount` | backend/repository/event_repository.py:129-136 | positive exactly when some RSVP of the event is CONFIRMED or ATTENDED |
| `EventRepository.AttendeesAreConfirmedPlusCheckedIn` | backend/repository/event_repository.py:129-136 | the attendee count equals the check-in summary's pending plus checked-in counts |
| `TicketModel.NewTicket` | backend/repository/ticket_repository.py:11-17 | the inserted row keeps the event, quantities and is not deleted |
| `TicketModel.PatchTicket` | backend/repository/ticket_repository.py:54-56 | the event is never changed; sold and total quantities take the supplied value when given |
| `TicketModel.PatchNothing` | backend/repository/ticket_repository.py:54-56 | an update with no field set changes nothing |
| `TicketModel.PatchIdempotent` | backend/repository/ticket_repository.py:54-56 | applying the same update twice is applying it once |
| `TicketRepository.Create` | backend/repository/ticket_repository.py:11-17 | fails with a foreign-key violation, changing nothing, for an unknown event; otherwise adds the row under the next id |
| `TicketRepository.Update` | backend/repository/ticket_repository.py:45-60 | a missing ticket gives none and no change; otherwise only the supplied fields change, sold and total quantities included |
| `TicketRepository.Delete` | backend/repository/ticket_repository.py:63-68 | true exactly when the row existed; removes it and its RSVPs |
| `TicketRepository.IncrementSoldCount` | backend/repository/ticket_repository.py:71-80 | true exactly when the ticket exists; its sold count rises by exactly 1 with no capacity check and nothing else changes |
| `TicketRepository.Released` | backend/repository/ticket_repository.py:88 | one less, floored at zero |
| `TicketRepository.DecrementSoldCount` | backend/repository/ticket_repository.py:83-92 | true exactly when the ticket exists; its sold count becomes `max(sold - 1, 0)` and nothing else changes |
| `TicketRepository.DeleteEventTickets` | backend/repository/ticket_repository.py:184-190 | removes exactly the event's tickets (and their RSVPs); true exactly when one existed |
| `TicketRepository.GetById` | backend/repository/ticket_repository.py:20-24 | the row with that id, or none |
| `TicketRepository.GetByEvent` | backend/repository/ticket_repository.py:27-35 | exactly the event's tickets, by price ascending |
| `TicketRepository.AvailableTickets` | backend/repository/ticket_repository.py:95-107 | exactly the event's tickets with sold < total, by price ascending |
| `TicketRepository.SoldOutTickets` | backend/repository/ticket_repository.py:110-118 | exactly the event's tickets with sold >= total |
| `TicketRepository.AvailableSoldOutPartition` | backend/repository/ticket_repository.py:95-118 | every ticket of the event is in exactly one of the two lists, and their lengths add up to the event's ticket count |
| `TicketRepository.CheckTicketAvailability` | backend/repository/ticket_repository.py:156-166 | false for a missing ticket; otherwise true exactly when total - sold >= the quantity |
| `TicketRepository.AvailabilityMatchesListing` | backend/repository/ticket_repository.py:95-166 | a ticket is available for one seat exactly when it is in its event's available list |
| `TicketRepository.SalesSummaryOf` | backend/repository/ticket_repository.py:121-153 | counts the event's ticket types; the percentage is zero exactly when the total available is not positive, otherwise sold over available |
| `TicketRepository.SummaryShift` | backend/repository/ticket_repository.py:124-126 | the sums are additive: replacing one ticket of the event shifts `total_sold` and `total_available` by that ticket's own change; a ticket of another event moves neither; the type count stays |
| `TicketRepository.SaleRaisesTotalSold` | backend/repository/ticket_repository.py:71-80 | one sale raises the event's `total_sold` by exactly 1 and leaves its capacity and type count alone; a sale of another event's ticket changes neither |
| `TicketRepository.ReleaseLowersTotalSold` | backend/repository/ticket_repository.py:83-92 | one release lowers the event's `total_sold` by 1 when the ticket had some sold, lifts a negative count to 0, leaves the capacity alone, and another event's release changes nothing |
| `TicketRepository.SummaryBounded` | backend/repository/ticket_repository.py:124-126 | when every ticket of the event is within capacity, 0 <= total sold <= total available |
| `RsvpModel.DefaultRsvpCreate` | backend/models/rsvp_model.py:31-35 | the status defaults to PENDING and the optional fields to none |
| `RsvpModel.NewRsvp` | backend/repository/rsvp_repository.py:16-22 | the inserted row keeps the event, user, ticket, status and QR code and is not deleted |
| `RsvpModel.PatchRsvp` | backend/repository/rsvp_repository.py:72-74 | event, user and ticket never change; the status changes only when supplied |
| `RsvpModel.PatchNothing` | backend/repository/rsvp_repository.py:72-74 | an update with no field set changes nothing |
| `RsvpModel.PatchIdempotent` | backend/repository/rsvp_repository.py:72-74 | applying the same update twice is applying it once |
| `RsvpRepository.Create` | backend/repository/rsvp_repository.py:16-22 | fails with a foreign-key violation, changing nothing, exactly when the event, ticket or user is missing; otherwise adds the row under the next id |
| `RsvpRepository.Update` | backend/repository/rsvp_repository.py:63-79 | a missing RSVP gives none and no change; otherwise only the supplied fields change |
| `RsvpRepository.Delete` | backend/repository/rsvp_repository.py:82-87 | true exactly when the row existed; removes only it |
| `RsvpRepository.WithStatus` | backend/repository/rsvp_repository.py:94-101 | the status is set; `checked_in_at` only when a value is supplied; nothing else changes |
| `RsvpRepository.UpdateStatus` | backend/repository/rsvp_repository.py:90-104 | true exactly when the RSVP exists; only that row changes, as above |
| `RsvpRepository.BulkUpdateStatus` | backend/repository/rsvp_repository.py:231-241 | exactly the listed existing RSVPs get the status, all others are unchanged, and the result is how many listed ids exist |
| `RsvpRepository.GetById` | backend/repository/rsvp_repository.py:25-29 | the row with that id, or none |
| `RsvpRepository.GetByUser` | backend/repository/rsvp_repository.py:32-40 | exactly the user's RSVPs, newest `created_at` first |
| `RsvpRepository.GetByEvent` | backend/repository/rsvp_repository.py:43-51 | exactly the event's RSVPs, newest `created_at` first |
| `RsvpRepository.GetByUserAndEvent` | backend/repository/rsvp_repository.py:54-60 | some RSVP of the pair whatever its status, and none only when the pair has none |
| `RsvpRepository.CheckUserRsvpExists` | backend/repository/rsvp_repository.py:218-228 | true exactly when the pair has an RSVP that is not CANCELLED |
| `RsvpRepository.ActiveRsvpIsFound` | backend/repository/rsvp_repository.py:54-60 | whenever an active RSVP exists, the pair lookup finds one |
| `RsvpRepository.CancelledRsvpIsFoundButNotActive` | backend/repository/rsvp_repository.py:218-228 | when every RSVP of the user for the event is cancelled, the pair lookup still finds a cancelled one while the active check reports none |
| `RsvpRepository.CheckInSummaryOf` | backend/repository/rsvp_repository.py:252-290 | pending counts CONFIRMED, checked in ATTENDED, no-show NO_SHOW, total all RSVPs of the event; the percentage is zero exactly when the total is zero |
| `RsvpRepository.SummaryPartsWithinTotal` | backend/repository/rsvp_repository.py:255-266 | pending + checked in + no-show <= total |
| `RsvpService.CreateRejection` | backend/services/rsvp_service.py:16-36 | event missing, then invalid ticket, then an RSVP of the pair in any status, then sold out (sold >= total), then a QR refusal, each exactly when it applies and in that order |
| `RsvpService.BookedRsvp` | backend/services/rsvp_service.py:36-44 | a CONFIRMED RSVP of the caller for that event and ticket, carrying the encoded QR payload and no check-in time |
| `RsvpService.CreateRsvp` | backend/services/rsvp_service.py:16-61 | a rejection changes nothing; otherwise the RSVP row is inserted under the next id and then the ticket's sold count rises by exactly 1; no other ticket or RSVP changes; a store within capacity stays within capacity |
| `RsvpService.CheckInAttendee` | backend/services/rsvp_service.py:64-80 | each error exactly when its guard is the first to fail (missing RSVP, caller who does not organise the event, RSVP already ATTENDED); succeeds exactly when all three pass, and then only that RSVP becomes ATTENDED at now, even when CANCELLED or NO_SHOW |
| `RsvpService.CancelRsvp` | backend/services/rsvp_service.py:83-95 | rejects a missing or foreign RSVP and an ATTENDED one; otherwise the RSVP becomes CANCELLED and its ticket's sold count drops by one, floored at zero, also when it was already cancelled |
| `RsvpService.CancelledRsvpBlocksRebooking` | backend/services/rsvp_service.py:26-31 | a cancelled RSVP of the pair makes every later booking fail as already RSVP'd |
| `RsvpService.CancelTwice` | backend/services/rsvp_service.py:83-95 | when the first cancel succeeds, so does the second, and the ticket's sold count has been released twice |
| `RsvpService.GetUserRsvps` | backend/services/rsvp_service.py:98-113 | the views of exactly the user's RSVPs, newest first |
| `RsvpService.GetEventAttendees` | backend/services/rsvp_service.py:116-135 | rejects a missing event or a caller who does not organise it; otherwise the views of exactly the event's RSVPs, newest first |
| `EventService.EventCreateOf` | backend/services/event_service.py:17-29 | owned by the caller, status DRAFT, no cover image, free flag and capacity as supplied |
| `EventService.DefaultCapacity` | backend/services/event_service.py:39 | 1000 when the capacity is unset or 0, otherwise the capacity |
| `EventService.GeneralAdmission` | backend/services/event_service.py:35-41 | "General Admission", free, price 0, USD, none sold, the default capacity, for the new event |
| `EventService.CreateEvent` | backend/services/event_service.py:14-44 | fails only for an unknown organizer, changing nothing; otherwise one new DRAFT event owned by the caller, plus exactly one General Admission ticket when the event is free and none otherwise |
| `EventService.NewEventHasNoAttendees` | backend/services/event_service.py:44 | a just-created event has attendee count 0 |
| `EventService.EventUpdateOf` | backend/services/event_service.py:115-126 | never supplies a status or a cover image; supplies title and free flag always and the nullable fields as given |
| `EventService.UpdateKeepsOwnerAndStatus` | backend/services/event_service.py:115-128 | an edit never changes organizer or status |
| `EventService.UpdateEvent` | backend/services/event_service.py:110-129 | rejects a missing event or a non-owner, changing nothing; otherwise only that event is patched |
| `EventService.DeleteEvent` | backend/services/event_service.py:132-138 | rejects a missing event or a non-owner, changing nothing; otherwise removes the event, keeps exactly the tickets of other events and exactly the RSVPs whose event and ticket remain, and no sequence moves |
| `EventService.GetEventById` | backend/services/event_service.py:83-107 | none exactly for a missing event; otherwise its view with the CONFIRMED + ATTENDED count |
| `EventService.GetAllEvents` | backend/services/event_service.py:47-80 | views of stored, undeleted PUBLISHED events that pass the category and search filters, with their attendee counts, by start date; view `i` is of row `skip + i` of all such events, and the page has the exact length `OFFSET`/`LIMIT` give |
| `EventService.GetUserEvents` | backend/services/event_service.py:141-167 | views of every event of the organizer and of no other, each id once, with their attendee counts, newest first |
| `EventService.GetEventAnalytics` | backend/services/event_service.py:170-176 | rejects a missing event or a non-owner; otherwise exactly the event's check-in summary (`RsvpRepository.CheckInSummaryOf`), whose parts lie within its total |
| `Tables.Page` | backend/repository/event_repository.py:62 | `OFFSET skip LIMIT limit`: the rows from position `skip` on, at most `limit` of them |

## Left out

- Concurrency. Every call runs to completion before the next, so nothing here says that two concurrent bookings cannot oversell a ticket. Nothing locks the duplicate check, the capacity check and the increment together, and no constraint ties them.
- E-mail sending (SMTP, templates) is a notification with no effect on the stored state, and is not modelled.
- QR image rendering (qrcode, PNG, base64) is not modelled. The code stands for the JSON text the image encodes.
- bcrypt and the JWT signature are not computed. A token is its claims, marked as signed or not.
- `Crypto.Hash`: a digest is idealised as injective, so only the password it was made from verifies. Real bcrypt reads only the first 72 bytes of a password (newer releases of the bcrypt package refuse longer ones instead), so two passwords that agree on their first 72 bytes verify against each other's digest.
- `AuthService.OldPasswordStopsWorking`: rests on that idealisation; in the source it holds only when the old and new passwords differ within their first 72 bytes.
- `UserRepository.NewPasswordVerifies`: "exactly the new password verifies" rests on the same idealisation.
- Floating point is not modelled: ticket prices, revenue and the two percentages. A price is a `real` used only for ordering. A percentage is `Zero` or an exact ratio, so only the zero-denominator case and the integer counts are verified.
- The clock is the parameter `now` in whole seconds. A refresh token's `expires_at` and its `exp` claim come from two readings of the clock in the source, and from one reading here.
- The random OTP (`User.generate_otp`) and the bcrypt salt are parameters.
- The rate limiter, the GraphQL transport, startup, configuration loading, logging and the commented-out middleware are not modelled.
- `get_current_user` is modelled only through `AuthTokens.CheckToken` on an access token; the user lookup after it is the plain `UserRepository.GetByEmail`.
- `invalidate_all_for_user` is the same statement as `delete_all_for_user`, and both are modelled by `RefreshTokenRepository.DeleteAllForUser`.
- `get_active_token_for_user` also deletes the user's expired tokens, but never commits that delete. The model leaves the store unchanged.
- The repository operations that the modelled services do not call are not modelled: user `delete`, `get_all` and `update_avatar`; event `update_cover_image`, `get_upcoming_events`, `get_events_by_date_range`, `get_popular_events` and `search_events`; ticket `get_all` and `bulk_create_tickets`; the RSVP detail, statistics and date queries, and `get_rsvps_by_qr_code`.
- `updated_at` and `created_at` timestamps written by the ORM mixin are not modelled, except `created_at` where a listing orders by it.
- Case folding is ASCII only. `str.lower()` also lowers non-ASCII letters, and Unicode case folding is not modelled.
- `QrService.DecodeGenerated`: `json.loads` is a parameter, not computed. The round trip is proved under the hypothesis that it parses the compact text of a payload back into that payload's dictionary.
- `Text.Like`: reads `\` as an ordinary character. PostgreSQL's default LIKE escape, where `\` makes the next character literal, is not modelled.
- `EventRepository.SearchIsSubstring`: states the substring reading only for search terms without `%`, `_` or `\`. In the source those characters make the term a wildcard or escape pattern.
- `Text.ILikeContains`: holds only for terms without `%`, `_` or `\`, for the same reason.
- `AuthService.RegisteredUser`: pydantic's `EmailStr` type check, which runs before the schema's e-mail validator, is not modelled. It normalises the address, and it refuses some addresses the pattern accepts, such as `a..b@mail.com`, `.a@mail.com`, `a@-x.com` and `ann@mail.123` with its numeric top-level domain. For those `register` fails, while the model creates the account.
- `AuthService.Register`: inherits that gap from `AuthService.RegisteredUser`, so it enrols some addresses the source refuses.
- At registration the source passes the bcrypt digest as the password of `UserCreate` and of `User`, so the password validators check the digest, not the user's password. The model does not apply them at registration.
- SQL leaves the order of rows with equal sort keys unspecified. The model breaks ties by id, and `.first()` returns the row with the lowest id.
- A negative `skip` or `limit` is refused by PostgreSQL. The model takes them as naturals.
- A failed insert leaves the model's id sequence where it was. PostgreSQL advances a sequence even when the `INSERT` then fails a constraint, so after a rejected insert the next id the source hands out can be higher than the model's.
- `RsvpService.CancelTwice`: states that the second cancel succeeds and that the sold count is released twice; the RSVP's own state after the second call is the same as after the first and is not restated.
