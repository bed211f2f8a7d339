/** The password, login and registration schemas and their three `validate*`
    functions. The login schema extends the password schema with an email, and the
    registration schema extends the login schema with a group id. */
module UserValidator {
  import opened Common
  import opened ValidationUtils
  import opened SchemaChecks

  const TooShort := "Password must be at least 8 characters"
  const TooLong := "Password can not be longer than 12 characters"
  const NoLower := "Password must contain at least one lower case character"
  const NoUpper := "Password must contain at least one upper case character"
  const NoDigit := "Password must contain at least one number"
  const NoSpecial := "Password must contain at least one special character"
  const InvalidEmail := "Email must be a valid email address"
  const NoGroup := "Group id can not be empty"

  /** The characters of the special-character class of the password rules. */
  const SpecialCharacters: set<char> := {
    '`', '!', '@', '#', '$', '%', '^', '&', '*', '(', ')', '_', '+', '-', '=', '[', ']',
    '{', '}', ';', '\'', ':', '"', '\\', '|', ',', '.', '<', '>', '/', '?', '~'}

  predicate IsLower(c: char) { 'a' <= c <= 'z' }
  predicate IsUpper(c: char) { 'A' <= c <= 'Z' }
  predicate IsDigit(c: char) { '0' <= c <= '9' }
  predicate IsSpecial(c: char) { c in SpecialCharacters }

  predicate HasLower(s: string) { exists i :: 0 <= i < |s| && IsLower(s[i]) }
  predicate HasUpper(s: string) { exists i :: 0 <= i < |s| && IsUpper(s[i]) }
  predicate HasDigit(s: string) { exists i :: 0 <= i < |s| && IsDigit(s[i]) }
  predicate HasSpecial(s: string) { exists i :: 0 <= i < |s| && IsSpecial(s[i]) }

  /** The object a user validator receives; each schema reads only its own fields. */
  datatype Credentials = Credentials(password: string, email: string, groupId: string)

  /** `passwordSchema`'s rules on the password itself. */
  predicate PasswordValid(p: string) {
    && 8 <= |p| <= 12
    && HasLower(p) && HasUpper(p) && HasDigit(p) && HasSpecial(p)
  }

  /** `.regex(pattern, msg)` for a one-character class: an issue unless some character
      of `v` is in the class. */
  function LowerIssues(v: string): (issues: seq<Issue>)
    ensures issues == [] <==> HasLower(v)
    ensures AtPath(issues, ["password"])
  {
    if HasLower(v) then [] else [Issue(["password"], NoLower)]
  }

  function UpperIssues(v: string): (issues: seq<Issue>)
    ensures issues == [] <==> HasUpper(v)
    ensures AtPath(issues, ["password"])
  {
    if HasUpper(v) then [] else [Issue(["password"], NoUpper)]
  }

  function DigitIssues(v: string): (issues: seq<Issue>)
    ensures issues == [] <==> HasDigit(v)
    ensures AtPath(issues, ["password"])
  {
    if HasDigit(v) then [] else [Issue(["password"], NoDigit)]
  }

  function SpecialIssues(v: string): (issues: seq<Issue>)
    ensures issues == [] <==> HasSpecial(v)
    ensures AtPath(issues, ["password"])
  {
    if HasSpecial(v) then [] else [Issue(["password"], NoSpecial)]
  }

  /** The password's issues, in the order the checks are chained. */
  function PasswordIssues(p: string): (issues: seq<Issue>)
    ensures issues == [] <==> PasswordValid(p)
    ensures AtPath(issues, ["password"])
  {
    var a := MinLength(["password"], p, 8, TooShort);
    var b := MaxLength(["password"], p, 12, TooLong);
    var c := LowerIssues(p);
    var d := UpperIssues(p);
    var e := DigitIssues(p);
    var f := SpecialIssues(p);
    AtPathAppend(a, b, ["password"]);
    AtPathAppend(a + b, c, ["password"]);
    AtPathAppend(a + b + c, d, ["password"]);
    AtPathAppend(a + b + c + d, e, ["password"]);
    AtPathAppend(a + b + c + d + e, f, ["password"]);
    assert a + b + c + d + e + f == [] <==> a == [] && b == [] && c == [] && d == [] && e == [] && f == [];
    a + b + c + d + e + f
  }

  /** The fields of the login schema. */
  const LoginFields: set<string> := {"password", "email"}

  /** The fields of the registration schema. */
  const RegistrationFields: set<string> := {"password", "email", "group_id"}

  function LoginIssues(c: Credentials): (issues: seq<Issue>)
    ensures issues == [] <==> PasswordValid(c.password) && IsEmail(c.email)
    ensures UnderFields(issues, LoginFields)
  {
    var a := PasswordIssues(c.password);
    var b := if IsEmail(c.email) then [] else [Issue(["email"], InvalidEmail)];
    AtPathUnder(a, ["password"]);
    UnderFieldWidens(a, "password", LoginFields);
    assert UnderFields(b, LoginFields);
    UnderFieldsAppend(a, b, LoginFields);
    a + b
  }

  function RegistrationIssues(c: Credentials): (issues: seq<Issue>)
    ensures issues == [] <==> PasswordValid(c.password) && IsEmail(c.email) && |c.groupId| >= 1
    ensures UnderFields(issues, RegistrationFields)
  {
    var a := LoginIssues(c);
    var b := MinLength(["group_id"], c.groupId, 1, NoGroup);
    assert UnderFields(a, RegistrationFields);
    AtPathUnder(b, ["group_id"]);
    UnderFieldWidens(b, "group_id", RegistrationFields);
    UnderFieldsAppend(a, b, RegistrationFields);
    a + b
  }

  /** `validatePassword(data)`. */
  function ValidatePassword(c: Credentials): (r: ValidationResult)
    ensures r.success <==> PasswordValid(c.password)
    ensures !r.success ==> (r.errors.Some? && |r.errors.value| > 0
      && forall i :: 0 <= i < |r.errors.value| ==> r.errors.value[i].path == Some("password"))
  {
    ResultOf(PasswordIssues(c.password), None)
  }

  /** `validateLogin(data)`. */
  function ValidateLogin(c: Credentials): (r: ValidationResult)
    ensures r.success <==> PasswordValid(c.password) && IsEmail(c.email)
    ensures Reports(r, None, LoginFields)
  {
    ResultReports(LoginIssues(c), None, LoginFields);
    ResultOf(LoginIssues(c), None)
  }

  /** `validateRegistration(data)`. */
  function ValidateRegistration(c: Credentials): (r: ValidationResult)
    ensures r.success <==> PasswordValid(c.password) && IsEmail(c.email) && |c.groupId| >= 1
    ensures Reports(r, None, RegistrationFields)
  {
    ResultReports(RegistrationIssues(c), None, RegistrationFields);
    ResultOf(RegistrationIssues(c), None)
  }

  /** Each schema extends the one before: registration validity implies login
      validity, which implies password validity. */
  lemma SchemasNest(c: Credentials)
    ensures ValidateRegistration(c).success ==> ValidateLogin(c).success
    ensures ValidateLogin(c).success ==> ValidatePassword(c).success
  {
  }

  /** A password shorter than 8 characters is reported first with the length message. */
  lemma ShortPasswordFirstError(c: Credentials)
    requires |c.password| < 8
    ensures var r := ValidatePassword(c);
      !r.success && r.errors.value[0] == FieldError(None, Some("password"), TooShort)
  {
    var issues := PasswordIssues(c.password);
    assert issues[0] == Issue(["password"], TooShort);
  }

  /** A password longer than 12 characters is reported first with the other length
      message. */
  lemma LongPasswordFirstError(c: Credentials)
    requires |c.password| > 12
    ensures var r := ValidatePassword(c);
      !r.success && r.errors.value[0] == FieldError(None, Some("password"), TooLong)
  {
    var issues := PasswordIssues(c.password);
    assert issues[0] == Issue(["password"], TooLong);
  }

  /** "Aa1!Aa1!" satisfies every password rule. */
  lemma PasswordExample()
    ensures PasswordValid("Aa1!Aa1!")
  {
    var p := "Aa1!Aa1!";
    assert IsUpper(p[0]) && IsLower(p[1]) && IsDigit(p[2]);
    assert IsSpecial(p[3]);
  }

  /** A password without a special character is refused, whatever else it has. */
  lemma NoSpecialRefused(c: Credentials)
    requires forall i :: 0 <= i < |c.password| ==> IsLower(c.password[i]) || IsUpper(c.password[i]) || IsDigit(c.password[i])
    ensures !ValidatePassword(c).success
  {
  }
}
