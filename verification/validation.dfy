/**
  The form's `validate` callback: a pure map from the three field values and the
  page context to the error messages Formik stores per field.

  The callback runs three statements in order, and the later ones may overwrite
  what the earlier ones set:
    1. an empty e-mail on the register page sets "E-mail is required";
    2. an empty username sets "Username is required"; OTHERWISE, on the register
       page, an e-mail the pattern rejects sets "Invalid email address",
       replacing the message of step 1;
    3. an empty password sets "Password is required".
  JavaScript truthiness of a string value is "not empty".
 */
module Validation {
  import opened EmailPattern

  /** The values PropTypes admits for `pageContext`. */
  datatype PageContext = Login | Register | Notes | Twitters | Articles

  datatype Field = Email | Username | Password

  /** Formik's `errors` object: a message per field that has one. */
  type Errors = map<Field, string>

  const EmailRequired: string := "E-mail is required"
  const InvalidEmail: string := "Invalid email address"
  const UsernameRequired: string := "Username is required"
  const PasswordRequired: string := "Password is required"

  /** The callback, statement by statement. Its contract is the closed form: which
      message, if any, each field ends up with, with the pattern taken from its
      decomposition-based definition. */
  function Validate(email: string, username: string, password: string, context: PageContext): (errors: Errors)
    ensures Email in errors <==> context == Register && (if username == "" then email == "" else !MatchesPattern(email))
    ensures Email in errors ==> errors[Email] == (if username == "" then EmailRequired else InvalidEmail)
    ensures Username in errors <==> username == ""
    ensures Username in errors ==> errors[Username] == UsernameRequired
    ensures Password in errors <==> password == ""
    ensures Password in errors ==> errors[Password] == PasswordRequired
  {
    MatchesIffPattern(email);
    var afterEmail: Errors :=
      if email == "" && context == Register then map[Email := EmailRequired] else map[];
    var afterUsername :=
      if username == "" then afterEmail[Username := UsernameRequired]
      else if context == Register && !Matches(email) then afterEmail[Email := InvalidEmail]
      else afterEmail;
    if password == "" then afterUsername[Password := PasswordRequired] else afterUsername
  }

  /** Outside the register page there is never an e-mail error, whatever the inputs. */
  lemma NoEmailErrorOutsideRegister(email: string, username: string, password: string, context: PageContext)
    requires context != Register
    ensures Email !in Validate(email, username, password, context)
  {
  }

  /** The username entry depends on the username alone: present, with the fixed
      message, exactly when the username is empty, in every context. */
  lemma UsernameErrorIffEmpty(email: string, username: string, password: string, context: PageContext)
    ensures var errors := Validate(email, username, password, context);
      (username == "" ==> Username in errors && errors[Username] == UsernameRequired) &&
      (username != "" ==> Username !in errors)
  {
  }

  /** The password entry depends on the password alone: no other input changes it. */
  lemma PasswordEntryIndependent(
    email: string, username: string, password: string, context: PageContext,
    email': string, username': string, context': PageContext)
    ensures var errors, errors' := Validate(email, username, password, context), Validate(email', username', password, context');
      (Password in errors <==> password == "") &&
      (Password in errors <==> Password in errors') &&
      (Password in errors ==> errors[Password] == errors'[Password] == PasswordRequired)
  {
  }

  /** Register page, empty e-mail: "E-mail is required" survives only while the
      username is also empty; otherwise the pattern (which rejects the empty
      string) overwrites it with "Invalid email address". */
  lemma EmptyEmailMessage(username: string, password: string)
    ensures var errors := Validate("", username, password, Register);
      Email in errors &&
      errors[Email] == (if username == "" then EmailRequired else InvalidEmail)
  {
    EmptyNeverMatches();
  }

  /** Register page, non-empty e-mail: an e-mail error appears exactly when the
      username is filled in and the e-mail fails the pattern. */
  lemma NonEmptyEmailError(email: string, username: string, password: string)
    requires email != ""
    ensures var errors := Validate(email, username, password, Register);
      (Email in errors <==> username != "" && !MatchesPattern(email)) &&
      (Email in errors ==> errors[Email] == InvalidEmail)
  {
  }

  /** The consequence of chaining the e-mail test onto the username's `else`: a
      malformed e-mail goes unflagged while the username is empty, and is flagged
      once a username is typed. */
  lemma MalformedEmailHiddenByEmptyUsername()
    ensures Email !in Validate("abc", "", "secret", Register)
    ensures Validate("abc", "ann", "secret", Register)[Email] == InvalidEmail
  {
    Examples();
  }

  /** A well-formed address with a username and password produces no error at all,
      on every page. */
  lemma WellFormedRegisterHasNoErrors(email: string, username: string, password: string, context: PageContext)
    requires MatchesPattern(email) && username != "" && password != ""
    ensures Validate(email, username, password, context) == map[]
  {
    var errors := Validate(email, username, password, context);
    assert forall f :: f !in errors;
  }
}
