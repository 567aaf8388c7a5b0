/** Request-schema validators for user payloads (`UserBase`, `UserCreate`) and
    the role enumeration. The email check here compares the domain with the
    disposable list as written, without lowercasing it. */
module UserSchema {
  import opened Wrappers
  import opened Text
  import opened EmailPattern

  datatype UserRole = Admin | Organizer | Attendee

  /** The `ValueError` each validator can raise. */
  datatype ValidationError =
    | InvalidEmailFormat
    | DisposableEmail
    | MissingUppercase
    | MissingLowercase
    | MissingDigit
    | TooCommon
    | ContainsEmail
    | ContainsName

  const DisposableDomains: seq<string> := ["mailinator.com", "tempmail.com", "example.com"]
  const WeakPasswords: seq<string> := ["password", "12345678", "qwerty"]

  /** `any(weak in value.lower() for weak in weak_passwords)`. */
  predicate IsWeak(value: string)
  {
    exists w | w in WeakPasswords :: IsSubstring(w, Lower(value))
  }

  /** Passes the four complexity checks: an upper-case letter, a lower-case
      letter, a digit, and none of the weak patterns. */
  predicate Strong(value: string)
  {
    HasUpper(value) && HasLower(value) && HasDigit(value) && !IsWeak(value)
  }

  /** A non-empty `text` occurs in the password, both lower-cased
      (`text and text.lower() in value.lower()`). */
  predicate Mentions(text: string, value: string)
  {
    text != "" && IsSubstring(Lower(text), Lower(value))
  }

  /** `UserBase.validate_email`. */
  function ValidateEmail(value: string): (r: Result<string, ValidationError>)
    ensures r.Success? <==> RegexAccepts(value) && Domain(value) !in DisposableDomains
    ensures r.Success? ==> r.value == Lower(value)
    ensures !RegexAccepts(value) ==> r == Failure(InvalidEmailFormat)
    ensures RegexAccepts(value) && Domain(value) in DisposableDomains ==> r == Failure(DisposableEmail)
  {
    MatchesIff(value);
    if !Matches(value) then Failure(InvalidEmailFormat)
    else if Domain(value) in DisposableDomains then Failure(DisposableEmail)
    else Success(Lower(value))
  }

  /** `info.data.get(key, "")`. */
  function Field(data: map<string, string>, key: string): string
  {
    if key in data then data[key] else ""
  }

  /** `UserCreate.validate_password`: `data` holds the fields validated before the
      password (`info.data`); only its "email" and "first_name" entries are read. */
  function ValidatePassword(value: string, data: map<string, string>): (r: Result<string, ValidationError>)
    ensures r.Success? ==> r.value == value
    ensures r.Success? <==>
              Strong(value) && !Mentions(Field(data, "email"), value) && !Mentions(Field(data, "first_name"), value)
    ensures r == Failure(MissingUppercase) <==> !HasUpper(value)
    ensures r == Failure(MissingLowercase) <==> HasUpper(value) && !HasLower(value)
    ensures r == Failure(MissingDigit) <==> HasUpper(value) && HasLower(value) && !HasDigit(value)
    ensures r == Failure(TooCommon) <==> HasUpper(value) && HasLower(value) && HasDigit(value) && IsWeak(value)
    ensures r == Failure(ContainsEmail) <==> Strong(value) && Mentions(Field(data, "email"), value)
    ensures r == Failure(ContainsName) <==>
              Strong(value) && !Mentions(Field(data, "email"), value) && Mentions(Field(data, "first_name"), value)
    ensures r != Failure(InvalidEmailFormat) && r != Failure(DisposableEmail)
  {
    var email := Lower(Field(data, "email"));
    var firstName := Lower(Field(data, "first_name"));
    if !HasUpper(value) then Failure(MissingUppercase)
    else if !HasLower(value) then Failure(MissingLowercase)
    else if !HasDigit(value) then Failure(MissingDigit)
    else if IsWeak(value) then Failure(TooCommon)
    else if data != map[] && email != "" && IsSubstring(email, Lower(value)) then Failure(ContainsEmail)
    else if data != map[] && firstName != "" && IsSubstring(firstName, Lower(value)) then Failure(ContainsName)
    else Success(value)
  }

  /** Only the "email" and "first_name" entries matter; in particular the
      user's `name`, stored under "name", is never compared. */
  lemma PasswordReadsOnlyEmailAndFirstName(value: string, data: map<string, string>)
    ensures ValidatePassword(value, data)
         == ValidatePassword(value, map k | k in data && (k == "email" || k == "first_name") :: data[k])
  {
    var kept := map k | k in data && (k == "email" || k == "first_name") :: data[k];
    assert Field(kept, "email") == Field(data, "email");
    assert Field(kept, "first_name") == Field(data, "first_name");
    if kept == map[] {
      assert Lower(Field(data, "email")) == "";
      assert Lower(Field(data, "first_name")) == "";
    }
  }
}
