# AuthTemplate validator — a Dafny model

This project models the logic of the sign-in / sign-up page template of the
FavNote notes application (`src/templates/AuthTemplate.js`):

- the Formik `validate` callback, which maps the e-mail, username and password
  values and the page context (`login`, `register`, `notes`, `twitters`,
  `articles`) to a map of error messages per field;
- the e-mail shape test used by that callback, the case-insensitive regular
  expression `^[A-Z0-9._%+-]+@[A-Z0-9.-]+\.[A-Z]{2,}$`;
- the render decisions: redirect to the notes route when a user is signed in,
  whether the e-mail input exists, when an error message is shown, and which
  heading, button label and link the page carries.

Modules:

- `Wrappers` (`wrappers.dfy`): `Option`.
- `EmailPattern` (`email_pattern.dfy`): the pattern defined twice. `MatchesPattern`
  says there is a decomposition `local + "@" + domain + "." + top` with each
  part in its character class. `Matches` is the executable check: split at the
  single `@`, then split the rest at its last `.`. The two are proved equal,
  and the verdict is proved not to depend on the case of ASCII letters. The
  regular expression has no `u` flag, so only `A`-`Z` and `a`-`z` count as
  letters. Its `$` has no `m` flag, so it means end of input.
- `Validation` (`validation.dfy`): `PageContext`, `Field`, the four messages and
  `Validate`. `Validate` runs the callback's three statements in source order.
  Its contract gives the closed form: which message each field ends up with.
- `View` (`view.dfy`): `Render`, from the `userID` prop, the page context and
  Formik's `errors` and `touched` state to a `Screen`.

The e-mail pattern test sits in the `else` branch of the username test
(lines 148-154). So, on the register page:

- with a non-empty username, an empty e-mail gets "Invalid email address",
  which overwrites the "E-mail is required" message set just before;
- with an empty username, a malformed non-empty e-mail gets no error at all,
  while an empty e-mail keeps "E-mail is required".

`Validation.EmptyEmailMessage` and `Validation.MalformedEmailHiddenByEmptyUsername`
state both effects.

## Model

| member | source | states |
|---|---|---|
| `EmailPattern.MatchesIffPattern` | src/templates/AuthTemplate.js:151 | the split-based check (exactly one `@`; a non-empty local part over letters, digits and `._%+-`; after the `@` a domain over letters, digits and `.-`, a last `.` that is not first, and at least two ASCII letters after it) accepts exactly the strings that decompose as the pattern requires |
| `EmailPattern.MatchesSound` | src/templates/AuthTemplate.js:151 | every string the split-based check accepts has a decomposition `local@domain.top` that fits the pattern |
| `EmailPattern.MatchesComplete` | src/templates/AuthTemplate.js:151 | every string that fits the pattern is accepted by the split-based check |
| `EmailPattern.DecompositionUnique` | src/templates/AuthTemplate.js:151 | a fitting decomposition is unique: the first `@` is the one right after the local part, the last `.` after it is the one right after the domain part, and the pieces between them are exactly the local part, domain and top-level label |
| `EmailPattern.MatchesIgnoresCase` | src/templates/AuthTemplate.js:151 | under the `i` flag, two strings that differ only in the case of ASCII letters get the same verdict |
| `EmailPattern.MatchLength` | src/templates/AuthTemplate.js:151 | a matching address has at least six characters |
| `EmailPattern.EmptyNeverMatches` | src/templates/AuthTemplate.js:151 | the empty string does not match |
| `EmailPattern.Examples` | src/templates/AuthTemplate.js:151 | `a@b.com` matches and `abc` does not |
| `Validation.Validate` | src/templates/AuthTemplate.js:144-157 | the error map of the callback: e-mail error only on the register page. With an empty username it is "E-mail is required", present iff the e-mail is empty. With a non-empty username it is "Invalid email address", present iff the e-mail fails the pattern. Username and password errors are present iff the value is empty, with their fixed messages |
| `Validation.NoEmailErrorOutsideRegister` | src/templates/AuthTemplate.js:146-153 | outside the register page the result never has an e-mail entry |
| `Validation.UsernameErrorIffEmpty` | src/templates/AuthTemplate.js:148 | in every context an empty username gives "Username is required" and a non-empty one gives no username entry |
| `Validation.PasswordEntryIndependent` | src/templates/AuthTemplate.js:155 | the password entry is present iff the password is empty, its message is "Password is required", and it is the same for any e-mail, username and context with the same password |
| `Validation.EmptyEmailMessage` | src/templates/AuthTemplate.js:146-153 | on the register page an empty e-mail always has an error: "E-mail is required" with an empty username, "Invalid email address" (overwriting it) otherwise |
| `Validation.NonEmptyEmailError` | src/templates/AuthTemplate.js:148-154 | on the register page a non-empty e-mail has an error iff the username is non-empty and the e-mail fails the pattern, and that error is "Invalid email address" |
| `Validation.MalformedEmailHiddenByEmptyUsername` | src/templates/AuthTemplate.js:148-154 | `abc` on the register page is not flagged while the username is empty, and is flagged once a username is entered |
| `Validation.WellFormedRegisterHasNoErrors` | src/templates/AuthTemplate.js:144-157 | on every page, an e-mail that fits the pattern together with a non-empty username and password produces an empty error map |
| `View.ShowField` | src/templates/AuthTemplate.js:181-193 | a field's message is shown, and its border highlighted, iff it has a non-empty error and is touched; the message shown is the error |
| `View.Render` | src/templates/AuthTemplate.js:130-237 | redirect to the notes route iff `userID` is a non-empty string; otherwise the form, with the e-mail input iff the page is register. The login page has "Sign in", "Log in" and a link to register. Every other page has "Sign up", "Register" and a link to login. Each input's message and highlight are those `ShowField` gives for its error and touched flag |
| `View.RedirectIgnoresPage` | src/templates/AuthTemplate.js:130 | redirect-or-form depends on `userID` alone, and a signed-in user gets the same redirect whatever the page context and form state |
| `View.UntouchedFieldsShowNothing` | src/templates/AuthTemplate.js:179-213 | no error message is shown for an untouched field, whatever the errors |
| `View.ShownMessagesAfterValidation` | src/templates/AuthTemplate.js:144-213 | for any falsy `userID` (absent or `""`) and the callback's errors, the page is the form and shows each message exactly when its field is touched and invalid in the callback's sense. The username and password messages are their fixed texts. On the register page the e-mail input is present, and its message is "E-mail is required" with an empty username and "Invalid email address" otherwise |

## Left out

- Styling: the styled-components CSS, keyframes and theme tokens (lines 16-127) are presentation only.
- React and JSX markup: the logo, the static paragraph, element nesting. Only the choices the markup makes are modelled.
- Formik's bookkeeping: `handleChange`, `handleBlur`, value binding, and when Formik re-runs `validate`. `errors` and `touched` are inputs of `View.Render`.
- `onSubmit` (lines 158-167): the one-second `setTimeout`, the call to `authenticate`, `resetForm` and `setSubmitting`. These are asynchronous timing and library calls whose code is not part of this model.
- Redux and routing: `connect`, `mapStateToProps`, `mapDispatchToProps`, the `authenticate` action, the `withContext` wrapper and the `routes` table (lines 9-14, 261-271) are not part of this model. Routes are the abstract enum `View.Route`, and `userID` is an `Option<string>` parameter.
- The run-time PropTypes check (lines 245-255): the `PageContext` datatype admits exactly the listed values.
- Strings are sequences of Unicode scalar values, while JavaScript strings are UTF-16 code units. The pattern only accepts ASCII characters, so no verdict differs.
