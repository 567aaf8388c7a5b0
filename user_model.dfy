/** The `users` row and its ORM-level validators, which run whenever the
    `email` or `password` attribute is assigned on a new `User`. */
module UserModel {
  import opened Wrappers
  import opened Text
  import opened EmailPattern
  import opened Crypto
  import UserSchema

  type ValidationError = UserSchema.ValidationError

  /** A `users` row. Times are whole seconds. */
  datatype User = User(
    email: string,
    name: string,
    password: PasswordHash,
    avatar: Option<string>,
    role: UserSchema.UserRole,
    isActive: bool,
    emailOtp: Option<string>,
    emailOtpExpiresAt: Option<int>,
    lastLogin: Option<int>,
    isDeleted: bool,
    passwordResetOtp: Option<string>,
    passwordResetOtpExpiresAt: Option<int>,
    createdAt: int,
    deletedAt: Option<int>)

  /** The row `User(**data.model_dump())` inserts for a new account: no OTPs,
      never logged in, not deleted. The validators above run on the email and
      password as they are assigned. */
  function NewUser(name: string, email: string, password: PasswordHash, avatar: Option<string>,
                   role: UserSchema.UserRole, isActive: bool, now: int): (u: User)
    ensures u.email == email && u.password == password && u.isActive == isActive
    ensures u.emailOtp.None? && u.passwordResetOtp.None? && !u.isDeleted && u.createdAt == now
  {
    User(email, name, password, avatar, role, isActive, None, None, None, false, None, None, now, None)
  }

  /** `UserUpdate`: name, avatar, role, activity flag and last login. */
  datatype UserUpdate = UserUpdate(
    name: Option<string>,
    avatar: Option<string>,
    role: Option<UserSchema.UserRole>,
    isActive: Option<bool>,
    lastLogin: Option<int>)

  /** The `setattr` loop of the repository update over the supplied fields. */
  function PatchUser(u: User, d: UserUpdate): (r: User)
    ensures r.email == u.email && r.password == u.password && r.isDeleted == u.isDeleted
    ensures r.emailOtp == u.emailOtp && r.passwordResetOtp == u.passwordResetOtp
    ensures r.isActive == (if d.isActive.Some? then d.isActive.value else u.isActive)
  {
    u.(name := if d.name.Some? then d.name.value else u.name,
       avatar := if d.avatar.Some? then d.avatar else u.avatar,
       role := if d.role.Some? then d.role.value else u.role,
       isActive := if d.isActive.Some? then d.isActive.value else u.isActive,
       lastLogin := if d.lastLogin.Some? then d.lastLogin else u.lastLogin)
  }

  lemma PatchIdempotent(u: User, d: UserUpdate)
    ensures PatchUser(PatchUser(u, d), d) == PatchUser(u, d)
  {
  }

  /** `User.validate_email`: unlike the schema validator it lowercases the
      domain before comparing it with the disposable list. */
  function ValidateEmail(value: string): (r: Result<string, ValidationError>)
    ensures r.Success? <==> RegexAccepts(value) && Lower(Domain(value)) !in UserSchema.DisposableDomains
    ensures r.Success? ==> r.value == Lower(value)
    ensures !RegexAccepts(value) ==> r == Failure(UserSchema.InvalidEmailFormat)
    ensures RegexAccepts(value) && Lower(Domain(value)) in UserSchema.DisposableDomains ==>
              r == Failure(UserSchema.DisposableEmail)
  {
    MatchesIff(value);
    if !Matches(value) then Failure(UserSchema.InvalidEmailFormat)
    else if Lower(Domain(value)) in UserSchema.DisposableDomains then Failure(UserSchema.DisposableEmail)
    else Success(Lower(value))
  }

  /** `User.validate_password`, given the `email` and `name` already assigned on
      the object (an empty string stands for an unset or empty attribute). */
  function ValidatePassword(value: string, email: string, name: string): (r: Result<string, ValidationError>)
    ensures r.Success? ==> r.value == value
    ensures r.Success? <==>
              UserSchema.Strong(value) && !UserSchema.Mentions(email, value) && !UserSchema.Mentions(name, value)
    ensures r == Failure(UserSchema.MissingUppercase) <==> !HasUpper(value)
    ensures r == Failure(UserSchema.MissingLowercase) <==> HasUpper(value) && !HasLower(value)
    ensures r == Failure(UserSchema.MissingDigit) <==> HasUpper(value) && HasLower(value) && !HasDigit(value)
    ensures r == Failure(UserSchema.TooCommon) <==>
              HasUpper(value) && HasLower(value) && HasDigit(value) && UserSchema.IsWeak(value)
    ensures r == Failure(UserSchema.ContainsEmail) <==> UserSchema.Strong(value) && UserSchema.Mentions(email, value)
    ensures r == Failure(UserSchema.ContainsName) <==>
              UserSchema.Strong(value) && !UserSchema.Mentions(email, value) && UserSchema.Mentions(name, value)
    ensures r != Failure(UserSchema.InvalidEmailFormat) && r != Failure(UserSchema.DisposableEmail)
  {
    if !HasUpper(value) then Failure(UserSchema.MissingUppercase)
    else if !HasLower(value) then Failure(UserSchema.MissingLowercase)
    else if !HasDigit(value) then Failure(UserSchema.MissingDigit)
    else if UserSchema.IsWeak(value) then Failure(UserSchema.TooCommon)
    else if email != "" && IsSubstring(Lower(email), Lower(value)) then Failure(UserSchema.ContainsEmail)
    else if name != "" && IsSubstring(Lower(name), Lower(value)) then Failure(UserSchema.ContainsName)
    else Success(value)
  }

  // ---------------------------------------------------------------------------
  // How the two email validators relate.

  lemma DisposableAreLowercase(d: string)
    requires d in UserSchema.DisposableDomains
    ensures Lower(d) == d
  {
    LowerOfNoUpper(d);
  }

  /** Whatever the ORM validator accepts, the schema validator accepts with the
      same result. */
  lemma {:induction false} ModelEmailStricterThanSchema(value: string)
    requires ValidateEmail(value).Success?
    ensures UserSchema.ValidateEmail(value) == ValidateEmail(value)
  {
    if Domain(value) in UserSchema.DisposableDomains {
      DisposableAreLowercase(Domain(value));
    }
  }

  lemma LowerExample()
    ensures Lower("Example.com") == "example.com"
    ensures Lower("ann@Example.com") == "ann@example.com"
  {
    LowerConcat("E", "xample.com");
    LowerOfNoUpper("xample.com");
    assert "E" + "xample.com" == "Example.com";
    LowerConcat("ann@", "Example.com");
    LowerOfNoUpper("ann@");
    assert "ann@" + "Example.com" == "ann@Example.com";
  }

  lemma ExampleAccepted()
    ensures RegexAccepts("ann@Example.com")
  {
    var s := "ann@Example.com";
    assert s[..3] == "ann" && s[4..11] == "Example" && s[12..] == "com";
    assert ShapedAt(s, 3, 11);
  }

  lemma ExampleDomain()
    ensures Domain("ann@Example.com") == "Example.com"
  {
    var s := "ann@Example.com";
    assert s[..3] == "ann" && s[4..11] == "Example" && s[12..] == "com";
    assert ShapedAt(s, 3, 11);
    DomainOfShaped(s, 3, 11);
  }

  /** The schema compares the domain case-sensitively, so a capitalised
      disposable domain passes it (lowercased on the way out)... */
  lemma SchemaDomainCheckIsCaseSensitive()
    ensures UserSchema.ValidateEmail("ann@Example.com") == Success("ann@example.com")
  {
    ExampleAccepted();
    ExampleDomain();
    assert "Example.com" !in UserSchema.DisposableDomains;
    LowerExample();
  }

  /** ...and is stopped only by the ORM validator, which lowercases the domain
      first. */
  lemma ModelDomainCheckIgnoresCase()
    ensures ValidateEmail("ann@Example.com") == Failure(UserSchema.DisposableEmail)
  {
    ExampleAccepted();
    ExampleDomain();
    LowerExample();
  }
}
